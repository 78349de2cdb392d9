/** Processor affinities (affinity.c): the heavy threads are spread over the cores by
    repeated halving of the distance, all other threads share what is left. */
module CpuAllocator {
  import opened CArithmetic

  // ------------------------------------------------------- the order of the cores

  /** The cores k, k+m, k+2m, ... that are not taken yet, behind those that are. */
  function Multiples(cores: nat, m: nat, k: nat, taken: seq<nat>): (t: seq<nat>)
    requires m > 0
    ensures taken <= t
    decreases cores - k
  {
    if k >= cores then taken
    else Multiples(cores, m, k + m, if k in taken then taken else taken + [k])
  }

  /** All cores in the order in which they are handed out from distance m on. */
  function Order(cores: nat, m: nat, taken: seq<nat>): (t: seq<nat>)
    ensures taken <= t
    decreases m
  {
    if m == 0 then taken else Order(cores, m / 2, Multiples(cores, m, 0, taken))
  }

  ghost predicate AreDistinctCores(s: seq<nat>, cores: nat) {
    && (forall i :: 0 <= i < |s| ==> s[i] < cores)
    && (forall i, j :: 0 <= i < j < |s| ==> s[i] != s[j])
  }

  lemma OneMore(s: seq<nat>, c: nat, cores: nat)
    requires AreDistinctCores(s, cores) && c < cores && c !in s
    ensures AreDistinctCores(s + [c], cores)
  {
  }

  lemma {:induction false} MultiplesAreDistinct(cores: nat, m: nat, k: nat, taken: seq<nat>)
    requires m > 0 && AreDistinctCores(taken, cores)
    ensures AreDistinctCores(Multiples(cores, m, k, taken), cores)
    decreases cores - k
  {
    hide AreDistinctCores;
    if k < cores {
      if k in taken {
        MultiplesAreDistinct(cores, m, k + m, taken);
      } else {
        OneMore(taken, k, cores);
        MultiplesAreDistinct(cores, m, k + m, taken + [k]);
      }
    }
  }

  lemma {:induction false} MultiplesOfOne(cores: nat, k: nat, taken: seq<nat>)
    ensures forall c: nat :: k <= c < cores ==> c in Multiples(cores, 1, k, taken)
    decreases cores - k
  {
    if k < cores {
      var next := if k in taken then taken else taken + [k];
      MultiplesOfOne(cores, k + 1, next);
      assert k in next;
    }
  }

  /** Halving any distance down to one reaches every core exactly once, whether or not
      the number of cores is a power of two. */
  lemma {:induction false} OrderIsComplete(cores: nat, m: nat, taken: seq<nat>)
    requires m > 0 && AreDistinctCores(taken, cores)
    ensures AreDistinctCores(Order(cores, m, taken), cores) && |Order(cores, m, taken)| == cores
    ensures forall c: nat :: c < cores ==> c in Order(cores, m, taken)
    decreases m
  {
    var next := Multiples(cores, m, 0, taken);
    MultiplesAreDistinct(cores, m, 0, taken);
    if m == 1 {
      MultiplesOfOne(cores, 0, taken);
      assert Order(cores, 0, next) == next;
      AllOnce(next, cores);
    } else {
      OrderIsComplete(cores, m / 2, next);
    }
  }

  lemma {:induction false} AllOnce(s: seq<nat>, n: nat)
    requires AreDistinctCores(s, n) && forall c: nat :: c < n ==> c in s
    ensures |s| == n
  {
    assert |s| > 0 ==> s[0] < n;
    if n > 0 {
      assert n - 1 in s;
      var i :| 0 <= i < |s| && s[i] == n - 1;
      var rest := s[..i] + s[i + 1..];
      forall c: nat | c < n - 1
        ensures c in rest
      {
        assert c in s;
        var j :| 0 <= j < |s| && s[j] == c;
        assert c == rest[if j < i then j else j - 1];
      }
      AllOnce(rest, n - 1);
    }
  }

  /** How often the distance m is halved before c is one of its multiples. */
  ghost function Level(c: nat, m: nat): nat {
    if m <= 1 || c % m == 0 then 0 else 1 + Level(c, m / 2)
  }

  /** All cores of lower levels, those of level d below k, each level in rising order. */
  ghost predicate IsByLevel(s: seq<nat>, cores: nat, top: nat, d: nat, k: nat) {
    && (forall i :: 0 <= i < |s| ==> s[i] < cores && ComesBefore(s[i], top, d, k))
    && (forall c: nat :: c < cores && ComesBefore(c, top, d, k) ==> c in s)
    && (forall i, j :: 0 <= i < j < |s| ==> ComesBefore(s[i], top, Level(s[j], top), s[j]))
  }

  ghost predicate ComesBefore(c: nat, top: nat, d: nat, k: nat) {
    Level(c, top) < d || (Level(c, top) == d && c < k)
  }

  ghost predicate IsDepth(top: nat, m: nat, d: nat) {
    && m > 0
    && (forall c: nat :: Level(c, top) >= d ==> Level(c, top) == d + Level(c, m))
  }

  lemma OneMultiple(k: nat, m: nat, c: nat)
    requires m > 0 && k % m == 0
    ensures (k + m) % m == 0
    ensures k <= c < k + m ==> (c % m == 0 <==> c == k)
  {
    var q := k / m;
    assert k == q * m && k + m == (q + 1) * m;
    if k <= c < k + m {
      var r := c - k;
      assert c == q * m + r && c % m == r by {
        Remainder(c, q, m, r);
      }
    }
    Remainder(k + m, q + 1, m, 0);
  }

  lemma LevelOf(top: nat, m: nat, d: nat, k: nat, c: nat)
    requires IsDepth(top, m, d) && k % m == 0
    ensures ComesBefore(c, top, d, k + m) <==> ComesBefore(c, top, d, k) || (c == k && Level(k, top) == d)
    ensures Level(k, top) <= d
  {
    OneMultiple(k, m, c);
  }

  lemma TakeByLevel(cores: nat, top: nat, m: nat, d: nat, k: nat, taken: seq<nat>)
    requires IsDepth(top, m, d) && k % m == 0 && k < cores && IsByLevel(taken, cores, top, d, k)
    ensures IsByLevel(if k in taken then taken else taken + [k], cores, top, d, k + m)
  {
    forall c: nat
      ensures ComesBefore(c, top, d, k + m) <==> ComesBefore(c, top, d, k) || (c == k && Level(k, top) == d)
    {
      LevelOf(top, m, d, k, c);
    }
    LevelOf(top, m, d, k, k);
    assert k !in taken ==> Level(k, top) == d;
    hide IsDepth, Level;
    var next := if k in taken then taken else taken + [k];
    forall c: nat | c < cores && ComesBefore(c, top, d, k + m)
      ensures c in next
    {
    }
  }

  lemma NextLevel(cores: nat, top: nat, d: nat, k: nat, taken: seq<nat>)
    requires k >= cores && IsByLevel(taken, cores, top, d, k)
    ensures IsByLevel(taken, cores, top, d + 1, 0)
  {
    hide Level;
    forall c: nat | c < cores && ComesBefore(c, top, d + 1, 0)
      ensures c in taken
    {
      assert ComesBefore(c, top, d, k);
    }
  }

  lemma {:induction false} StageIsByLevel(cores: nat, top: nat, m: nat, d: nat, k: nat, taken: seq<nat>)
    requires m > 0 && IsDepth(top, m, d) && k % m == 0 && IsByLevel(taken, cores, top, d, k)
    ensures IsByLevel(Multiples(cores, m, k, taken), cores, top, d + 1, 0)
    decreases cores - k
  {
    hide IsByLevel, IsDepth;
    if k >= cores {
      NextLevel(cores, top, d, k, taken);
    } else {
      TakeByLevel(cores, top, m, d, k, taken);
      OneMultiple(k, m, k);
      StageIsByLevel(cores, top, m, d, k + m, if k in taken then taken else taken + [k]);
    }
  }

  lemma DepthStep(top: nat, m: nat, d: nat)
    requires m > 1 && IsDepth(top, m, d)
    ensures IsDepth(top, m / 2, d + 1)
  {
    forall c: nat | Level(c, top) >= d + 1
      ensures Level(c, top) == d + 1 + Level(c, m / 2)
    {
      assert Level(c, m) >= 1;
    }
  }

  lemma {:induction false} OrderIsByLevel(cores: nat, top: nat, m: nat, d: nat, taken: seq<nat>) returns (last: nat)
    requires m > 0 && IsDepth(top, m, d) && IsByLevel(taken, cores, top, d, 0)
    ensures IsByLevel(Order(cores, m, taken), cores, top, last, 0)
    decreases m
  {
    hide IsByLevel, IsDepth, Multiples;
    StageIsByLevel(cores, top, m, d, 0, taken);
    if m > 1 {
      DepthStep(top, m, d);
      last := OrderIsByLevel(cores, top, m / 2, d + 1, Multiples(cores, m, 0, taken));
    } else {
      last := d + 1;
    }
  }

  /** Of two heavy threads the later one has a core of a higher level, or of the same level
      and a higher number. */
  lemma SpreadByHalving(cores: nat, n: nat, i: nat, j: nat)
    requires 2 <= cores && i < j < n <= cores
    ensures var a, b := HandedOut(cores, n)[i], HandedOut(cores, n)[j];
      Level(a, cores / 2) < Level(b, cores / 2) || (Level(a, cores / 2) == Level(b, cores / 2) && a < b)
  {
    var top := cores / 2;
    assert IsByLevel([], cores, top, 0, 0);
    assert IsDepth(top, top, 0);
    var _ := OrderIsByLevel(cores, top, top, 0, []);
    OrderIsComplete(cores, top, []);
    var order := Order(cores, top, []);
    assert ComesBefore(order[i], top, Level(order[j], top), order[j]);
  }

  /** The cores of the first n heavy threads. */
  ghost function HandedOut(cores: nat, n: nat): (s: seq<nat>)
    requires cores >= 2 && n <= cores
    ensures |s| == n && AreDistinctCores(s, cores)
  {
    OrderIsComplete(cores, cores / 2, []);
    Order(cores, cores / 2, [])[..n]
  }

  // ------------------------------------------------------------- the allocation

  /** Everything still to come when k is the next candidate at distance m. */
  ghost function ToCome(cores: nat, m: nat, k: nat, taken: seq<nat>): seq<nat> {
    if m == 0 then taken else Order(cores, m / 2, Multiples(cores, m, k, taken))
  }

  lemma IsStart(cores: nat, m: nat, k: nat, taken: seq<nat>)
    ensures taken <= ToCome(cores, m, k, taken)
  {
  }

  lemma TakeNext(cores: nat, m: nat, k: nat, taken: seq<nat>)
    requires m > 0 && k < cores && k !in taken
    ensures ToCome(cores, m, k, taken) == ToCome(cores, m, k + m, taken + [k])
    ensures taken + [k] <= ToCome(cores, m, k, taken)
  {
    IsStart(cores, m, k + m, taken + [k]);
  }

  ghost predicate Marks(ind: seq<int>, taken: seq<nat>, cores: nat) {
    cores <= |ind| && forall c :: 0 <= c < cores ==> (ind[c] == 1 <==> c in taken)
  }

  lemma IsTaken(ind: seq<int>, taken: seq<nat>, cores: nat, k: nat)
    requires Marks(ind, taken, cores) && k < cores <= |ind|
    ensures ind[k] == 1 <==> k in taken
  {
  }

  lemma PassTaken(cores: nat, m: nat, k: nat, taken: seq<nat>)
    requires m > 0 && k < cores && k in taken
    ensures ToCome(cores, m, k, taken) == ToCome(cores, m, k + m, taken)
  {
  }

  lemma Halve(cores: nat, m: nat, k: nat, taken: seq<nat>)
    requires m > 0 && k >= cores
    ensures ToCome(cores, m, k, taken) == ToCome(cores, m / 2, 0, taken)
    ensures m / 2 == 0 ==> ToCome(cores, m, k, taken) == taken
  {
  }

  /** The next free core from k on, halving the distance m at each end; m == 0: there is none. */
  method NextFree(ind: array<int>, cores: nat, k0: nat, m0: nat, ghost taken: seq<nat>) returns (k: nat, m: nat)
    requires m0 > 0 && cores <= ind.Length && Marks(ind[..], taken, cores)
    ensures m == 0 ==> ToCome(cores, m0, k0, taken) == taken
    ensures m > 0 ==> k < cores && k !in taken && ToCome(cores, m, k, taken) == ToCome(cores, m0, k0, taken)
  {
    hide Order, Multiples, ToCome, Marks;
    k, m := k0, m0;
    while true
      invariant m > 0 && ToCome(cores, m, k, taken) == ToCome(cores, m0, k0, taken)
      decreases m
    {
      if k < cores {
        while k < cores && ind[k] == 1
          invariant ToCome(cores, m, k, taken) == ToCome(cores, m0, k0, taken)
          decreases cores - k
        {
          IsTaken(ind[..], taken, cores, k);
          PassTaken(cores, m, k, taken);
          k := k + m;
        }
        if k < cores {
          IsTaken(ind[..], taken, cores, k);
          return;
        }
      }
      Halve(cores, m, k, taken);
      k := 0;
      m := m / 2;
      if m == 0 {
        return;
      }
    }
  }

  /** The list of blocked cores: those taken so far, then -1 up to the number of cores. */
  ghost predicate Lists(blocked: seq<int>, taken: seq<nat>, cores: nat, stack: seq<int>) {
    && |taken| <= cores <= |blocked| == |stack|
    && blocked == taken + Blanks(cores - |taken|) + stack[cores..]
  }

  function Blanks(n: nat): (b: seq<int>)
    ensures |b| == n
  {
    seq(n, i => -1)
  }

  method Clear(blocked: array<int>, ind: array<int>, cores: nat)
    requires blocked != ind && cores <= blocked.Length && cores <= ind.Length
    modifies blocked, ind
    ensures Lists(blocked[..], [], cores, old(blocked[..])) && Marks(ind[..], [], cores)
  {
    for i := 0 to cores
      invariant forall j :: 0 <= j < i ==> blocked[j] == -1 && ind[j] == 0
      invariant forall j :: i <= j < blocked.Length ==> blocked[j] == old(blocked[j])
    {
      blocked[i] := -1;
      ind[i] := 0;
    }
    assert blocked[..] == [] + Blanks(cores) + old(blocked[..])[cores..];
  }

  method Block(blocked: array<int>, ind: array<int>, cores: nat, i: nat, k: nat,
               ghost taken: seq<nat>, ghost stack: seq<int>)
    requires i < cores && k < cores <= ind.Length && blocked != ind && i == |taken| && cores <= blocked.Length
    requires Lists(blocked[..], taken, cores, stack) && Marks(ind[..], taken, cores)
    modifies blocked, ind
    ensures Lists(blocked[..], taken + [k], cores, stack) && Marks(ind[..], taken + [k], cores)
  {
    ghost var b, d := blocked[..], ind[..];
    blocked[i] := k;
    ind[k] := 1;
    assert blocked[..] == b[i := k] && ind[..] == d[k := 1];
    assert Blanks(cores - i) == [-1] + Blanks(cores - i - 1);
  }

  /** Hand out cores to the heavy threads; n is how many got one. */
  method AllocateCores(blocked: array<int>, ind: array<int>, cores: nat, heavy: nat) returns (n: nat)
    requires cores >= 2 && blocked != ind && cores <= blocked.Length && cores <= ind.Length
    modifies blocked, ind
    ensures n == if heavy <= cores then heavy else cores
    ensures Lists(blocked[..], HandedOut(cores, n), cores, old(blocked[..]))
  {
    hide Order, Multiples, Lists, Marks;
    ghost var stack, order, taken: seq<nat> := blocked[..], Order(cores, cores / 2, []), [];
    OrderIsComplete(cores, cores / 2, []);
    Clear(blocked, ind, cores);
    var m: nat, k: nat := cores / 2, 0;
    n := heavy;
    ToComeFirst(cores);
    hide ToCome;
    var i: nat := 0;
    while i < n
      invariant i <= n == heavy && |taken| == i && m > 0 && taken <= order
      invariant Lists(blocked[..], taken, cores, stack) && Marks(ind[..], taken, cores)
      invariant i < n ==> k < cores && k !in taken
      invariant ToCome(cores, m, k, taken) == order
    {
      TakeNext(cores, m, k, taken);
      Block(blocked, ind, cores, i, k, taken, stack);
      taken := taken + [k];
      k, m := NextFree(ind, cores, k + m, m, taken);
      i := i + 1;
      if m == 0 {
        n := i;
        break;
      }
    }
    assert taken == order[..n];
  }

  lemma ToComeFirst(cores: nat)
    requires cores >= 2
    ensures ToCome(cores, cores / 2, 0, []) == Order(cores, cores / 2, [])
  {
  }

  // ------------------------------------------------------------------ the masks

  /** x turned by rot in a circle of n. */
  function Turned(x: nat, rot: nat, n: nat): nat {
    if x + rot >= n then x + rot - n else x + rot
  }

  lemma TurnedIsModulo(x: nat, rot: nat, n: nat)
    requires x < n && rot <= n
    ensures Turned(x, rot, n) == (x + rot) % n
  {
    Remainder(x + rot, if x + rot >= n then 1 else 0, n, Turned(x, rot, n));
  }

  function TurnedBack(y: nat, rot: nat, n: nat): nat
    requires rot < n
  {
    if y >= rot then y - rot else y - rot + n
  }

  /** The processors of core c: with hyperthreading each core has two. */
  function Processors(c: nat, cores: nat, hyper: bool): set<nat> {
    if hyper then {c, c + cores} else {c}
  }

  function WithSiblings(taken: seq<nat>, cores: nat, hyper: bool): (list: seq<nat>)
    ensures |list| == if hyper then 2 * |taken| else |taken|
    ensures forall j :: 0 <= j < |taken| ==> list[j] == taken[j]
    ensures hyper ==> forall j :: 0 <= j < |taken| ==> list[|taken| + j] == taken[j] + cores
  {
    if hyper then taken + seq(|taken|, j requires 0 <= j < |taken| => taken[j] + cores) else taken
  }

  ghost predicate IsLight(light: set<nat>, list: seq<nat>, rot: nat, processors: nat)
    requires rot < processors
  {
    forall y: nat :: y in light <==> y < processors && TurnedBack(y, rot, processors) !in list
  }

  ghost predicate AreHeavy(heavy: seq<set<nat>>, taken: seq<nat>, rot: nat, cores: nat, hyper: bool) {
    && |heavy| == |taken|
    && forall j :: 0 <= j < |heavy| ==> heavy[j] == Processors(Turned(taken[j], rot, cores), cores, hyper)
  }

  /** Every processor belongs to the light threads or to exactly one heavy thread. */
  ghost predicate IsPartition(light: set<nat>, heavy: seq<set<nat>>, processors: nat) {
    && (forall y :: y in light ==> y < processors)
    && (forall j, y :: 0 <= j < |heavy| && y in heavy[j] ==> y < processors && y !in light)
    && (forall y: nat :: y < processors && y !in light ==> IsHeavy(heavy, y))
    && (forall i, j :: 0 <= i < j < |heavy| ==> heavy[i] !! heavy[j])
  }

  ghost predicate IsHeavy(heavy: seq<set<nat>>, y: nat) {
    exists j :: 0 <= j < |heavy| && y in heavy[j]
  }

  function Cores(processors: nat, hyper: bool): nat {
    if hyper then processors / 2 else processors
  }

  /** No heavy thread's core is turned past the last one. */
  ghost predicate NoneWraps(taken: seq<nat>, rot: nat, cores: nat) {
    forall j :: 0 <= j < |taken| ==> taken[j] + rot < cores
  }

  /** Turning the light set in the circle of processors and the heavy sets in the circle of
      cores fits together unless an odd number of processors is halved and a heavy thread
      is turned past the last core. */
  lemma PartitionIff(processors: nat, hyper: bool, rot: nat, taken: seq<nat>, light: set<nat>, heavy: seq<set<nat>>)
    requires var cores := Cores(processors, hyper);
      && rot < cores && AreDistinctCores(taken, cores)
      && IsLight(light, WithSiblings(taken, cores, hyper), rot, processors)
      && AreHeavy(heavy, taken, rot, cores, hyper)
    ensures IsPartition(light, heavy, processors) <==>
      !hyper || processors % 2 == 0 || NoneWraps(taken, rot, Cores(processors, hyper))
  {
    var cores := Cores(processors, hyper);
    if !hyper || processors % 2 == 0 || NoneWraps(taken, rot, cores) {
      Fits(processors, hyper, rot, taken, light, heavy);
    } else {
      var j :| 0 <= j < |taken| && taken[j] + rot >= cores;
      Leaks(processors, rot, taken, light, heavy, j);
    }
  }

  lemma Fits(processors: nat, hyper: bool, rot: nat, taken: seq<nat>, light: set<nat>, heavy: seq<set<nat>>)
    requires var cores := Cores(processors, hyper);
      && rot < cores && AreDistinctCores(taken, cores)
      && IsLight(light, WithSiblings(taken, cores, hyper), rot, processors)
      && AreHeavy(heavy, taken, rot, cores, hyper)
    requires !hyper || processors % 2 == 0 || NoneWraps(taken, rot, Cores(processors, hyper))
    ensures IsPartition(light, heavy, processors)
  {
    var cores := Cores(processors, hyper);
    var list := WithSiblings(taken, cores, hyper);
    forall j, y | 0 <= j < |heavy| && y in heavy[j]
      ensures y < processors && y !in light
    {
      InList(taken, cores, hyper, rot, processors, j, y);
    }
    forall y: nat | y < processors && y !in light
      ensures IsHeavy(heavy, y)
    {
      var j := Owner(processors, hyper, rot, taken, y);
      assert y in heavy[j];
    }
    forall i, j | 0 <= i < j < |heavy|
      ensures heavy[i] !! heavy[j]
    {
      assert taken[i] != taken[j];
      assert Turned(taken[i], rot, cores) != Turned(taken[j], rot, cores);
    }
  }

  lemma Owner(processors: nat, hyper: bool, rot: nat, taken: seq<nat>, y: nat) returns (j: nat)
    requires var cores := Cores(processors, hyper);
      && rot < cores && AreDistinctCores(taken, cores) && y < processors
      && TurnedBack(y, rot, processors) in WithSiblings(taken, cores, hyper)
    requires !hyper || processors % 2 == 0 || NoneWraps(taken, rot, Cores(processors, hyper))
    ensures var cores := Cores(processors, hyper);
      j < |taken| && y in Processors(Turned(taken[j], rot, cores), cores, hyper)
  {
    var cores := Cores(processors, hyper);
    var list, x := WithSiblings(taken, cores, hyper), TurnedBack(y, rot, processors);
    var i :| 0 <= i < |list| && list[i] == x;
    j := if i < |taken| then i else i - |taken|;
    assert i == j || i == |taken| + j;
    TurnsTo(taken[j], x, cores, hyper, rot, processors, y);
  }

  lemma TurnsTo(c: nat, x: nat, cores: nat, hyper: bool, rot: nat, processors: nat, y: nat)
    requires cores == Cores(processors, hyper) && rot < cores && c < cores && y < processors
    requires x == TurnedBack(y, rot, processors) && (x == c || (hyper && x == c + cores))
    requires !hyper || processors % 2 == 0 || c + rot < cores
    ensures y in Processors(Turned(c, rot, cores), cores, hyper)
  {
    assert hyper && processors % 2 == 0 ==> processors == 2 * cores;
  }

  lemma InList(taken: seq<nat>, cores: nat, hyper: bool, rot: nat, processors: nat, j: nat, y: nat)
    requires cores == Cores(processors, hyper) && rot < cores && AreDistinctCores(taken, cores)
    requires j < |taken| && y in Processors(Turned(taken[j], rot, cores), cores, hyper)
    requires !hyper || processors % 2 == 0 || taken[j] + rot < cores
    ensures y < processors && TurnedBack(y, rot, processors) in WithSiblings(taken, cores, hyper)
  {
    var list := WithSiblings(taken, cores, hyper);
    var x := TurnedBack(y, rot, processors);
    assert x == list[j] || (hyper && x == list[|taken| + j]);
  }

  /** The processor just before the lowest core turned past the end belongs to nobody. */
  lemma {:induction false} Leaks(processors: nat, rot: nat, taken: seq<nat>, light: set<nat>, heavy: seq<set<nat>>, j: nat)
    requires var cores := Cores(processors, true);
      && rot < cores && AreDistinctCores(taken, cores)
      && IsLight(light, WithSiblings(taken, cores, true), rot, processors)
      && AreHeavy(heavy, taken, rot, cores, true)
    requires processors % 2 == 1 && j < |taken| && taken[j] + rot >= Cores(processors, true)
    ensures exists y: nat :: y < processors && y !in light && !IsHeavy(heavy, y)
    decreases taken[j]
  {
    var cores := Cores(processors, true);
    var w := taken[j] + rot - cores;
    var y: nat := if w == 0 then processors - 1 else w - 1;
    assert TurnedBack(y, rot, processors) == WithSiblings(taken, cores, true)[|taken| + j];
    assert y !in light;
    if IsHeavy(heavy, y) {
      var i :| 0 <= i < |heavy| && y in heavy[i];
      Leaks(processors, rot, taken, light, heavy, i);
    }
  }

  /** The search of the list for processor i; the list ends at the first -1. */
  method IsBlocked(blocked: array<int>, i: nat, ghost list: seq<nat>) returns (found: bool)
    requires |list| < blocked.Length && list == blocked[..|list|] && blocked[|list|] == -1
    ensures found <==> i in list
  {
    var j := 0;
    while blocked[j] != -1
      invariant 0 <= j <= |list| && i !in list[..j]
      decreases |list| - j
    {
      if blocked[j] == i {
        return true;
      }
      assert list[..j + 1] == list[..j] + [list[j]];
      j := j + 1;
    }
    assert list[..|list|] == list;
    return false;
  }

  method LightMask(blocked: array<int>, rot: nat, processors: nat, ghost list: seq<nat>) returns (light: set<nat>)
    requires |list| < blocked.Length && list == blocked[..|list|] && blocked[|list|] == -1 && rot < processors
    ensures IsLight(light, list, rot, processors)
  {
    light := {};
    for i := 0 to processors
      invariant forall y: nat :: y in light <==>
        y < processors && TurnedBack(y, rot, processors) !in list && TurnedBack(y, rot, processors) < i
    {
      var found := IsBlocked(blocked, i, list);
      if !found {
        var k := i + rot;
        if k >= processors {
          k := k - processors;
        }
        light := light + {k};
      }
    }
  }

  method HeavyMasks(blocked: array<int>, n: nat, rot: nat, cores: nat, hyper: bool, ghost taken: seq<nat>)
    returns (heavy: seq<set<nat>>)
    requires |taken| == n <= blocked.Length && taken == blocked[..n] && rot < cores
    requires AreDistinctCores(taken, cores)
    ensures AreHeavy(heavy, taken, rot, cores, hyper)
  {
    heavy := [];
    for m := 0 to n
      invariant |heavy| == m
      invariant forall j :: 0 <= j < m ==> heavy[j] == Processors(Turned(taken[j], rot, cores), cores, hyper)
    {
      assert taken[m] == blocked[m];
      var block: nat := rot + blocked[m];
      if block >= cores {
        block := block - cores;
      }
      var mask := {block};
      if hyper {
        mask := mask + {block + cores};
      }
      heavy := heavy + [mask];
    }
  }

  /** With hyperthreading: the second processors of the blocked cores, behind the first ones. */
  method AddSiblings(blocked: array<int>, n: nat, cores: nat, ghost taken: seq<nat>, ghost stack: seq<int>)
    requires |taken| == n && 2 * n < blocked.Length && Lists(blocked[..], taken, cores, stack)
    requires Ends(stack, 2 * n, cores)
    modifies blocked
    ensures blocked[..2 * n] == WithSiblings(taken, cores, true) && blocked[2 * n] == -1
  {
    hide WithSiblings, Lists, Ends;
    ghost var list := WithSiblings(taken, cores, true);
    FirstProcessors(blocked[..], taken, cores, stack);
    for i := 0 to n
      invariant forall j :: 0 <= j < n + i ==> blocked[j] == list[j]
      invariant blocked[2 * n] == -1
    {
      assert list[n + i] == taken[i] + cores;
      blocked[i + n] := blocked[i] + cores;
    }
  }

  lemma FirstProcessors(blocked: seq<int>, taken: seq<nat>, cores: nat, stack: seq<int>)
    requires Lists(blocked, taken, cores, stack) && Ends(stack, 2 * |taken|, cores)
    ensures 2 * |taken| < |blocked| && blocked[2 * |taken|] == -1
    ensures forall j :: 0 <= j < |taken| ==> blocked[j] == taken[j]
  {
  }

  /** The array on the stack ends the list, where the list reaches beyond the cleared cells. */
  ghost predicate Ends(stack: seq<int>, entries: nat, cores: nat) {
    entries < |stack| && (entries < cores || stack[entries] == -1)
  }

  class Affinity {
    const processors: nat            // no_of_processors
    const hyper: bool                // hyperthread_flag
    var rotate: nat                  // cpu_rotate
    var count: nat                   // thread_rotate_count

    ghost predicate Valid()
      reads this
    {
      Cores(processors, hyper) >= 2 && rotate < Cores(processors, hyper)
    }

    constructor (processors: nat, hyper: bool)
      requires Cores(processors, hyper) >= 2
      ensures Valid() && rotate == 0 && count == 0
      ensures this.processors == processors && this.hyper == hyper
    {
      this.processors, this.hyper, rotate, count := processors, hyper, 0, 0;
    }

    /** set_affinity_masks */
    method SetMasks(blocked: array<int>, ind: array<int>, threads: nat) returns (light: set<nat>, heavy: seq<set<nat>>)
      requires Cores(processors, hyper) >= 2 && rotate <= Cores(processors, hyper)
      requires blocked != ind && Cores(processors, hyper) <= ind.Length
      requires Cores(processors, hyper) <= blocked.Length
      requires Ends(blocked[..], if hyper then 2 * HeavyCount(threads) else HeavyCount(threads), Cores(processors, hyper))
      modifies this`rotate, blocked, ind
      ensures Valid() && rotate == Turned(0, old(rotate), Cores(processors, hyper))
      ensures AreHeavy(heavy, HandedOut(Cores(processors, hyper), HeavyCount(threads)),
                       rotate, Cores(processors, hyper), hyper)
      ensures IsPartition(light, heavy, processors) <==>
        !hyper || processors % 2 == 0
        || NoneWraps(HandedOut(Cores(processors, hyper), HeavyCount(threads)), rotate, Cores(processors, hyper))
    {
      hide Order, Multiples, IsPartition, AreHeavy, IsLight, NoneWraps, HandedOut, WithSiblings;
      var cores := Cores(processors, hyper);
      if rotate >= cores {
        rotate := rotate - cores;
      }
      ghost var stack := blocked[..];
      var n := AllocateCores(blocked, ind, cores, threads);
      ghost var taken := HandedOut(cores, n);
      ghost var list := WithSiblings(taken, cores, hyper);
      if hyper {
        AddSiblings(blocked, n, cores, taken, stack);
      } else {
        NoSiblings(blocked[..], taken, cores, stack);
      }
      hide Lists, Ends;
      light := LightMask(blocked, rotate, processors, list);
      heavy := HeavyMasks(blocked, n, rotate, cores, hyper, taken);
      PartitionIff(processors, hyper, rotate, taken, light, heavy);
    }

    function HeavyCount(threads: nat): nat {
      if threads <= Cores(processors, hyper) then threads else Cores(processors, hyper)
    }

    /** setup_thread_affinities; without blocked processors there are no masks. */
    method Setup(blocked: array<int>, ind: array<int>, maxBlocked: nat, threads: nat)
      returns (light: set<nat>, heavy: seq<set<nat>>)
      requires Valid()
      requires blocked != ind && Cores(processors, hyper) <= ind.Length
      requires Cores(processors, hyper) <= blocked.Length
      requires Ends(blocked[..], if hyper then 2 * HeavyCount(threads) else HeavyCount(threads), Cores(processors, hyper))
      modifies this`rotate, this`count, blocked, ind
      ensures Valid() && rotate == 0 && count == 0
      ensures maxBlocked > 0 ==> IsPartition(light, heavy, processors)
    {
      rotate, count := 0, 0;
      if maxBlocked == 0 {
        return {}, [];
      }
      light, heavy := SetMasks(blocked, ind, threads);
      assert NoneWraps(HandedOut(Cores(processors, hyper), HeavyCount(threads)), 0, Cores(processors, hyper));
    }

    /** fix_thread_affinities: every fifth call moves all threads on by one core. */
    method Fix(blocked: array<int>, ind: array<int>, maxBlocked: nat, threads: nat)
      returns (moved: bool, light: set<nat>, heavy: seq<set<nat>>)
      requires Valid() && count <= 4
      requires blocked != ind && Cores(processors, hyper) <= ind.Length
      requires Cores(processors, hyper) <= blocked.Length
      requires Ends(blocked[..], if hyper then 2 * HeavyCount(threads) else HeavyCount(threads), Cores(processors, hyper))
      modifies this`rotate, this`count, blocked, ind
      ensures Valid() && moved == (maxBlocked > 0 && old(count) == 4)
      ensures count == if maxBlocked == 0 then old(count) else (old(count) + 1) % 5
      ensures rotate == if moved then Turned(old(rotate), 1, Cores(processors, hyper)) else old(rotate)
      ensures moved && (!hyper || processors % 2 == 0) ==> IsPartition(light, heavy, processors)
    {
      moved, light, heavy := false, {}, [];
      if maxBlocked == 0 {
        return;
      }
      count := count + 1;
      if count > 4 {
        count := 0;
        rotate := rotate + 1;
        light, heavy := SetMasks(blocked, ind, threads);
        moved := true;
      }
    }
  }

  lemma NoSiblings(blocked: seq<int>, taken: seq<nat>, cores: nat, stack: seq<int>)
    requires Lists(blocked, taken, cores, stack) && Ends(stack, |taken|, cores)
    ensures |taken| < |blocked| && blocked[..|taken|] == taken && blocked[|taken|] == -1
  {
  }
}
