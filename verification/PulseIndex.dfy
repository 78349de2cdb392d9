/** The table from a pulse's position between two samples to the reference pulse that fits
    it (buf.c:1822-1902): some slots are set from the pulses, the others from their neighbours. */
module PulseIndex {
  import opened RefPulses

  // ---------------------------------------------------------- the completed table

  ghost predicate IsSet(t: seq<int>, i: int) {
    0 <= i < |t| && t[i] != -1
  }

  /** The nearest set slot at or before i, else -1. */
  ghost function Before(t: seq<int>, i: int): (l: int)
    requires -1 <= i < |t|
    ensures -1 <= l <= i && (l >= 0 ==> IsSet(t, l))
    ensures forall x :: l < x <= i ==> !IsSet(t, x)
    decreases i + 1
  {
    if i < 0 || IsSet(t, i) then i else Before(t, i - 1)
  }

  /** The nearest set slot at or after i, else |t|. */
  ghost function After(t: seq<int>, i: int): (r: int)
    requires 0 <= i <= |t|
    ensures i <= r <= |t| && (r < |t| ==> IsSet(t, r))
    ensures forall x :: i <= x < r ==> !IsSet(t, x)
    decreases |t| - i
  {
    if i >= |t| || IsSet(t, i) then i else After(t, i + 1)
  }

  /** How many slots of a hole take the value on their left. */
  function LeftPart(h: nat): nat {
    if h % 2 == 0 then h / 2 + 1 else h / 2
  }

  ghost function Completed(t: seq<int>, i: int): int
    requires 0 <= i < |t|
  {
    if t[i] != -1 then t[i]
    else
      var l, r := Before(t, i), After(t, i);
      if l < 0 then 0
      else if r >= |t| then |t| - 1
      else if i - l - 1 < LeftPart(r - l - 1) then t[l]
      else t[r]
  }

  /** A slot of a hole takes the value of the nearer set slot, the right one when both are
      equally near; but in a hole of even length the first slot beyond the middle still takes
      the left one.  Without a set slot on the left it is 0, without one on the right the last number. */
  lemma CompletedIsNear(t: seq<int>, i: nat, l: int, r: int)
    requires i < |t| && !IsSet(t, i) && -1 <= l < i < r <= |t|
    requires (l >= 0 ==> IsSet(t, l)) && (r < |t| ==> IsSet(t, r)) && forall x :: l < x < r ==> !IsSet(t, x)
    ensures l >= 0 && r < |t| ==>
      Completed(t, i) == if i - l < r - i || (i - l == r - i + 1 && (r - l) % 2 == 1) then t[l] else t[r]
    ensures l < 0 ==> Completed(t, i) == 0
    ensures l >= 0 && r == |t| ==> Completed(t, i) == |t| - 1
  {
    assert Before(t, i) == l && After(t, i) == r;
  }

  /** Where the set slots rise, so does the whole table. */
  lemma CompletedRises(t: seq<int>, i: nat, j: nat)
    requires i <= j < |t|
    requires forall x :: IsSet(t, x) ==> 0 <= t[x] < |t|
    requires forall x, y :: x <= y && IsSet(t, x) && IsSet(t, y) ==> t[x] <= t[y]
    ensures 0 <= Completed(t, i) <= Completed(t, j) < |t|
  {
    var li, ri, lj, rj := Before(t, i), After(t, i), Before(t, j), After(t, j);
    if lj < i && ri > j {
      // both in one hole
      assert li == lj && ri == rj;
    } else {
      assert lj >= 0 ==> IsSet(t, lj);
      assert ri < |t| ==> IsSet(t, ri);
    }
  }

  // -------------------------------------------------------------- one hole

  /** Fill the hole from a through b from both its ends. */
  method FillHole(tab: array<int>, a: nat, b: nat) returns (i: nat)
    requires 1 <= a <= b && b + 1 < tab.Length
    modifies tab
    ensures a <= i <= b + 1
    ensures forall k :: a <= k <= b ==>
      tab[k] == if k - a < LeftPart(b + 1 - a) then old(tab[a - 1]) else old(tab[b + 1])
    ensures forall k :: 0 <= k < tab.Length && !(a <= k <= b) ==> tab[k] == old(tab[k])
  {
    var left, right := tab[a - 1], tab[b + 1];
    var h := b + 1 - a;
    i := a;
    var j := b;
    while i - j < 2
      invariant a <= i <= b + 2 && j == a + b - i && 2 * (i - a) <= h + 2
      invariant forall k :: 0 <= k < tab.Length && !(a <= k <= b) ==> tab[k] == old(tab[k])
      invariant 2 * (i - a) <= h ==>
        forall k :: a <= k <= b && !(i <= k <= j) ==> tab[k] == if k < i then left else right
      invariant 2 * (i - a) > h ==>
        forall k :: a <= k <= b ==> tab[k] == if k - a < LeftPart(h) then left else right
      decreases b + 2 - i
    {
      tab[i] := tab[i - 1];
      tab[j] := tab[j + 1];
      i := i + 1;
      j := j - 1;
    }
    i := i - 1;
  }

  // ------------------------------------------------------------- all holes

  ghost predicate HasPulses(t: seq<int>) {
    && (exists i :: IsSet(t, i))
    && (forall i :: IsSet(t, i) ==> 0 <= t[i] < |t|)
  }

  /** All slots before `done` are complete, all others as they were. */
  ghost predicate IsDoneTo(t: seq<int>, u: seq<int>, done: nat) {
    && done <= |t| == |u|
    && (done > 0 ==> IsSet(t, done - 1))
    && (forall k :: 0 <= k < done ==> u[k] == Completed(t, k) != -1)
    && (forall k :: done <= k < |t| ==> u[k] == t[k])
  }

  lemma InHole(t: seq<int>, a: nat, b: int, k: nat)
    requires a <= k < b <= |t| && (forall x :: a <= x < b ==> t[x] == -1)
    requires (a > 0 ==> IsSet(t, a - 1)) && (b < |t| ==> IsSet(t, b))
    ensures Before(t, k) == a - 1 && After(t, k) == b
  {
  }

  /** To the next hole. */
  method SkipSet(tab: array<int>, i0: nat, ghost t: seq<int>, ghost done0: nat) returns (i: nat, ghost done: nat)
    requires i0 <= done0 && IsDoneTo(t, tab[..], done0)
    ensures i <= done && done0 <= done && IsDoneTo(t, tab[..], done)
    ensures i == tab.Length || (i == done && tab[i] == -1)
  {
    i, done := i0, done0;
    while i < tab.Length && tab[i] != -1
      invariant i <= done <= tab.Length && done0 <= done && IsDoneTo(t, tab[..], done)
    {
      assert tab[..][i] == tab[i];
      if i == done {
        done := done + 1;
      }
      i := i + 1;
    }
    assert i < tab.Length ==> tab[..][i] == tab[i];
  }

  /** Slots before the first pulse. */
  method FillStart(tab: array<int>, ghost t: seq<int>) returns (i: nat)
    requires HasPulses(t) && IsDoneTo(t, tab[..], 0) && tab.Length > 0
    modifies tab
    ensures i < tab.Length && IsDoneTo(t, tab[..], i + 1)
  {
    ghost var u := tab[..];
    ghost var f :| IsSet(t, f);
    i := 0;
    while tab[i] == -1
      invariant 0 <= i <= f && forall k :: 0 <= k < i ==> t[k] == -1
      invariant forall k :: 0 <= k < tab.Length ==> tab[k] == if k < i then 0 else t[k]
      decreases f - i
    {
      tab[i] := 0;
      i := i + 1;
    }
    forall k: nat | k <= i
      ensures tab[..][k] == Completed(t, k) != -1
    {
      if k < i {
        InHole(t, 0, i, k);
      }
    }
  }

  /** Slots after the last pulse. */
  method FillEnd(tab: array<int>, a: nat, ghost t: seq<int>)
    requires 0 < a < tab.Length && IsDoneTo(t, tab[..], a)
    requires forall k :: a <= k < tab.Length ==> t[k] == -1
    modifies tab
    ensures forall k :: 0 <= k < tab.Length ==> tab[k] == Completed(t, k)
  {
    ghost var u := tab[..];
    var i := a;
    while i < tab.Length
      invariant a <= i <= tab.Length
      invariant forall k :: 0 <= k < tab.Length ==> tab[k] == if a <= k < i then tab.Length - 1 else u[k]
    {
      tab[i] := tab.Length - 1;
      i := i + 1;
    }
    forall k: nat | k < tab.Length
      ensures tab[k] == Completed(t, k)
    {
      if k >= a {
        InHole(t, a, tab.Length, k);
      }
    }
  }

  /** A hole with pulses on both sides. */
  method FillBetween(tab: array<int>, a: nat, r: nat, ghost t: seq<int>) returns (i: nat)
    requires HasPulses(t) && 0 < a < r < tab.Length && IsDoneTo(t, tab[..], a) && IsSet(t, r)
    requires forall k :: a <= k < r ==> t[k] == -1
    modifies tab
    ensures i <= r && IsDoneTo(t, tab[..], r + 1)
  {
    ghost var u := tab[..];
    i := FillHole(tab, a, r - 1);
    assert u[a - 1] == t[a - 1] && u[r] == t[r];
    forall k: nat | k <= r
      ensures tab[..][k] == Completed(t, k) != -1
    {
      if a <= k < r {
        InHole(t, a, r, k);
      } else {
        assert tab[k] == u[k];
      }
    }
  }

  /** The completion loop. */
  method Complete(tab: array<int>)
    requires HasPulses(tab[..])
    modifies tab
    ensures forall k :: 0 <= k < tab.Length ==> tab[k] == Completed(old(tab[..]), k)
  {
    ghost var t := tab[..];
    var i: nat := 0;
    ghost var done: nat := 0;
    hide Completed;
    while true
      invariant i <= done && IsDoneTo(t, tab[..], done)
      decreases tab.Length - done
    {
      i, done := SkipSet(tab, i, t, done);
      if i == 0 {
        i := FillStart(tab, t);
        done := i + 1;
      } else if i < tab.Length {
        var j := i;
        while j < tab.Length && tab[j] == -1
          invariant i <= j <= tab.Length && forall k :: i <= k < j ==> t[k] == -1
        {
          assert tab[..][j] == t[j];
          j := j + 1;
        }
        if j >= tab.Length {
          FillEnd(tab, i, t);
          return;
        }
        assert tab[..][j] == t[j];
        i := FillBetween(tab, i, j, t);
        done := j + 1;
      } else {
        return;
      }
    }
  }

  // --------------------------------------------------------------- the whole table

  /** The last pulse among the first k that falls into slot j, else -1. */
  function Registered(position: seq<int>, k: nat, j: nat): (p: int)
    requires k <= |position|
    ensures -1 <= p < k
  {
    if k == 0 then -1
    else if Clamped(position[k - 1]) == j then k - 1
    else Registered(position, k - 1, j)
  }

  function Table(position: seq<int>): (t: seq<int>)
    ensures |t| == MAX_REFPULSES
  {
    seq(MAX_REFPULSES, j requires 0 <= j < MAX_REFPULSES => Registered(position, |position|, j))
  }

  lemma {:induction false} RegisteredIsLast(position: seq<int>, k: nat, j: nat)
    requires k <= |position|
    ensures var p := Registered(position, k, j);
      && (p >= 0 ==> Clamped(position[p]) == j)
      && forall x :: p < x < k ==> Clamped(position[x]) != j
  {
    if k > 0 && Clamped(position[k - 1]) != j {
      RegisteredIsLast(position, k - 1, j);
    }
  }

  /** At least one slot is set, because at least one pulse was registered. */
  lemma TableHasPulses(position: seq<int>)
    requires |position| == MAX_REFPULSES
    ensures HasPulses(Table(position))
  {
    var j := Clamped(position[MAX_REFPULSES - 1]);
    assert IsSet(Table(position), j);
  }

  lemma SlotsRise(position: seq<int>, i: nat, j: nat)
    requires |position| == MAX_REFPULSES && i <= j < MAX_REFPULSES
    requires forall x, y :: 0 <= x <= y < MAX_REFPULSES ==> position[x] <= position[y]
    ensures Completed(Table(position), i) <= Completed(Table(position), j)
  {
    var t := Table(position);
    TableHasPulses(position);
    forall x, y | x <= y && IsSet(t, x) && IsSet(t, y)
      ensures t[x] <= t[y]
    {
      RegisteredIsLast(position, MAX_REFPULSES, x);
      RegisteredIsLast(position, MAX_REFPULSES, y);
    }
    CompletedRises(t, i, j);
  }

  lemma CompletedIsPulse(t: seq<int>, i: nat)
    requires HasPulses(t) && i < |t|
    ensures 0 <= Completed(t, i) < |t|
  {
    var l, r := Before(t, i), After(t, i);
    assert (l >= 0 ==> IsSet(t, l)) && (r < |t| ==> IsSet(t, r)) && (t[i] != -1 ==> IsSet(t, i));
  }

  /** The table of init_blanker; position holds each pulse's slot before clamping. */
  method BuildPulseIndex(tab: array<int>, position: seq<int>)
    requires tab.Length == |position| == MAX_REFPULSES
    modifies tab
    ensures forall i :: 0 <= i < MAX_REFPULSES ==> tab[i] == Completed(Table(position), i)
    ensures forall i :: 0 <= i < MAX_REFPULSES ==> 0 <= tab[i] < MAX_REFPULSES
    ensures (forall x, y :: 0 <= x <= y < MAX_REFPULSES ==> position[x] <= position[y]) ==>
      forall i, j :: 0 <= i <= j < MAX_REFPULSES ==> tab[i] <= tab[j]
  {
    for i := 0 to MAX_REFPULSES
      invariant forall j :: 0 <= j < i ==> tab[j] == -1
    {
      tab[i] := -1;
    }
    for k := 0 to MAX_REFPULSES
      invariant forall j :: 0 <= j < MAX_REFPULSES ==> tab[j] == Registered(position, k, j)
    {
      tab[Clamped(position[k])] := k;
    }
    hide Completed, HasPulses, Registered;
    ghost var t := Table(position);
    assert tab[..] == t;
    TableHasPulses(position);
    Complete(tab);
    forall i: nat | i < MAX_REFPULSES
      ensures 0 <= tab[i] < MAX_REFPULSES
    {
      CompletedIsPulse(t, i);
    }
    if forall x, y :: 0 <= x <= y < MAX_REFPULSES ==> position[x] <= position[y] {
      forall i: nat, j: nat | i <= j < MAX_REFPULSES
        ensures tab[i] <= tab[j]
      {
        SlotsRise(position, i, j);
      }
    }
  }
}
