/** Finding the polarisation of a pulse (get_pulse_pol and transform_timf2_pol in
    blank1.c), over the reals. */
module PulsePolarisation {
  import opened Rings
  import opened PolarisedPulses

  datatype Option<T> = None | Some(value: T)

  /** Summed powers of X and Y and their overlap. */
  datatype Moments = Moments(x2: real, y2: real, reXY: real, imXY: real)

  ghost predicate IsSqrt(sqrt: real -> real) {
    forall r: real :: r >= 0.0 ==> sqrt(r) >= 0.0 && sqrt(r) * sqrt(r) == r
  }

  function AddCell(m: Moments, cell: Cell): Moments {
    Moments(m.x2 + Norm2(cell.x),
            m.y2 + Norm2(cell.y),
            m.reXY + (cell.x.re * cell.y.re + cell.x.im * cell.y.im),
            m.imXY + (cell.x.im * cell.y.re - cell.x.re * cell.y.im))
  }

  ghost function WindowMoments(cells: seq<Cell>, first: nat, count: nat): Moments
    requires first < |cells| && count <= |cells|
  {
    if count == 0 then Moments(0.0, 0.0, 0.0, 0.0)
    else AddCell(WindowMoments(cells, first, count - 1), cells[At(first, count - 1, |cells|)])
  }

  /** The decision of get_pulse_pol once the sums are known. */
  function PolarisationOf(m: Moments, sqrt: real -> real): (r: Option<Polarisation>)
    requires IsSqrt(sqrt)
    requires m.x2 + m.y2 > 0.0
    ensures r.Some? ==> r.value.IsUnit()
  {
    var t1 := m.x2 + m.y2;
    FromShares(m.x2 / t1, m.y2 / t1, m.reXY / t1, m.imXY / t1, sqrt)
  }

  /** The same from the normalised sums. */
  function FromShares(x2: real, y2: real, reXY: real, imXY: real, sqrt: real -> real): (r: Option<Polarisation>)
    requires IsSqrt(sqrt)
    ensures r.Some? ==> r.value.IsUnit()
  {
    var t2 := Overlap(reXY, imXY);
    Chosen(x2, y2, reXY, imXY, t2, x2 * y2 - t2, sqrt)
  }

  function Chosen(x2: real, y2: real, reXY: real, imXY: real, t2: real, noi2: real, sqrt: real -> real)
    : (r: Option<Polarisation>)
    requires IsSqrt(sqrt)
    ensures r.Some? ==> r.value.IsUnit()
  {
    if noi2 > 0.15 then None
    else if x2 - noi2 > 0.0 then
      RootIsPositive(sqrt, x2 - noi2);
      if y2 - noi2 > 0.0 && t2 > 0.0 then
        Some(Elliptic(sqrt(x2 - noi2), sqrt(y2 - noi2), reXY, imXY, t2, sqrt))
      else if x2 > y2 then Some(Polarisation(1.0, 0.0, 0.0))
      else Some(Polarisation(0.0, 1.0, 0.0))
    else Some(Polarisation(0.0, 1.0, 0.0))
  }

  function Overlap(reXY: real, imXY: real): real {
    reXY * reXY + imXY * imXY
  }

  function Along(sina: real, part: real, root: real): real
    requires root > 0.0
  {
    sina * part / root
  }

  /** c1 = cos(a); c2 and c3 share sin(a) in the direction of the overlap; then all are normalised. */
  function Elliptic(cosa: real, sina: real, reXY: real, imXY: real, t2: real, sqrt: real -> real): (r: Polarisation)
    requires IsSqrt(sqrt)
    requires cosa > 0.0 && t2 > 0.0
    ensures r.IsUnit()
  {
    RootIsPositive(sqrt, t2);
    Normalised(cosa, Along(sina, reXY, sqrt(t2)), Along(sina, imXY, sqrt(t2)), sqrt)
  }

  function Normalised(c1: real, c2: real, c3: real, sqrt: real -> real): (r: Polarisation)
    requires IsSqrt(sqrt)
    requires c1 > 0.0
    ensures r.IsUnit()
  {
    var sum := SumOfSquares(c1, c2, c3);
    var t1 := sqrt(sum);
    RootIsPositive(sqrt, sum);
    UnitByDivision(c1, c2, c3, t1, sum);
    Polarisation(c1 / t1, c2 / t1, c3 / t1)
  }

  function SumOfSquares(c1: real, c2: real, c3: real): (sum: real)
    requires c1 > 0.0
    ensures sum > 0.0
  {
    ProductIsPositive(c1, c1, c1 * c1);
    c1 * c1 + c2 * c2 + c3 * c3
  }

  // A product is named by a variable: the solver drops the sign of a literal square.
  lemma ProductIsPositive(a: real, b: real, r: real)
    requires a > 0.0 && b > 0.0 && r == a * b
    ensures r > 0.0
  {
  }

  lemma ProductIsNotPositive(a: real, b: real, r: real)
    requires a >= 0.0 && b <= 0.0 && r == a * b
    ensures r <= 0.0
  {
  }

  lemma RootIsPositive(sqrt: real -> real, r: real)
    requires IsSqrt(sqrt) && r > 0.0
    ensures sqrt(r) > 0.0 && sqrt(r) * sqrt(r) == r
  {
    assert sqrt(r) * sqrt(r) == r;
  }

  lemma UnitByDivision(c1: real, c2: real, c3: real, t: real, sum: real)
    requires t > 0.0 && sum > 0.0 && t * t == sum == c1 * c1 + c2 * c2 + c3 * c3
    ensures (c1 / t) * (c1 / t) + (c2 / t) * (c2 / t) + (c3 / t) * (c3 / t) == 1.0
  {
    SquareOfQuotient(c1, t);
    SquareOfQuotient(c2, t);
    SquareOfQuotient(c3, t);
    Cancel((c1 / t) * (c1 / t) + (c2 / t) * (c2 / t) + (c3 / t) * (c3 / t), 1.0, sum);
  }

  lemma SquareOfQuotient(a: real, t: real)
    requires t > 0.0
    ensures (a / t) * (a / t) * (t * t) == a * a
  {
    var q := a / t;
    assert q * t == a;
  }

  lemma Cancel(a: real, b: real, c: real)
    requires c > 0.0 && a * c == b * c
    ensures a == b
  {
    assert (a - b) * c == 0.0;
  }

  // ------------------------------------------------------------- any signal

  lemma NoneIff(x: real, y: real, re: real, im: real, sqrt: real -> real)
    requires IsSqrt(sqrt)
    ensures FromShares(x, y, re, im, sqrt).None? <==> x * y - Overlap(re, im) > 0.15
  {
    hide Elliptic, Overlap, IsSqrt;
  }

  lemma NoiseOfShares(m: Moments, t: real, x: real, y: real, re: real, im: real, tt: real, noise: real)
    requires t > 0.0 && x == m.x2 / t && y == m.y2 / t && re == m.reXY / t && im == m.imXY / t
    requires tt == t * t && noise == x * y - Overlap(re, im)
    ensures noise * tt == m.x2 * m.y2 - (m.reXY * m.reXY + m.imXY * m.imXY)
  {
    ProductOfShares(m.x2, m.y2, t, x, y);
    ProductOfShares(m.reXY, m.reXY, t, re, re);
    ProductOfShares(m.imXY, m.imXY, t, im, im);
  }

  lemma ProductOfShares(a: real, b: real, t: real, p: real, q: real)
    requires t > 0.0 && p == a / t && q == b / t
    ensures (p * q) * (t * t) == a * b
  {
    assert p * t == a && q * t == b;
    assert (p * q) * (t * t) == (p * t) * (q * t);
  }

  lemma Compare(a: real, b: real, c: real)
    requires c > 0.0
    ensures a > b <==> a * c > b * c
  {
    if a > b {
      ProductIsPositive(a - b, c, (a - b) * c);
    } else {
      assert (b - a) * c >= 0.0;
    }
  }

  /** X and Y have more than 0.15 of the square of the total power in common noise. */
  predicate IsNoisy(m: Moments) {
    var total := m.x2 + m.y2;
    m.x2 * m.y2 - (m.reXY * m.reXY + m.imXY * m.imXY) > 0.15 * (total * total)
  }

  lemma NoisyIff(m: Moments, noise: real)
    requires m.x2 + m.y2 > 0.0
    requires var t := m.x2 + m.y2; noise == (m.x2 / t) * (m.y2 / t) - Overlap(m.reXY / t, m.imXY / t)
    ensures IsNoisy(m) <==> noise > 0.15
  {
    var t := m.x2 + m.y2;
    var tt := t * t;
    ProductIsPositive(t, t, tt);
    NoiseOfShares(m, t, m.x2 / t, m.y2 / t, m.reXY / t, m.imXY / t, tt, noise);
    Compare(noise, 0.15, tt);
  }

  /** Only then no polarisation is found. */
  lemma NoPolarisationIff(m: Moments, sqrt: real -> real)
    requires IsSqrt(sqrt) && m.x2 + m.y2 > 0.0
    ensures PolarisationOf(m, sqrt).None? <==> IsNoisy(m)
  {
    hide FromShares, Overlap, IsNoisy, IsSqrt;
    var t := m.x2 + m.y2;
    NoisyIff(m, (m.x2 / t) * (m.y2 / t) - Overlap(m.reXY / t, m.imXY / t));
    NoneIff(m.x2 / t, m.y2 / t, m.reXY / t, m.imXY / t, sqrt);
  }

  /** With signal in both antennas and some overlap, c2 and c3 have the direction of the overlap,
      and c1 stands to them as the signal in X to that in Y, both less the common noise. */
  lemma DirectionIs(x2: real, y2: real, re: real, im: real, sqrt: real -> real)
    requires IsSqrt(sqrt)
    requires var noise := x2 * y2 - Overlap(re, im); noise <= 0.15 && x2 > noise && y2 > noise
    requires Overlap(re, im) > 0.0
    ensures FromShares(x2, y2, re, im, sqrt).Some?
    ensures var pol, noise := FromShares(x2, y2, re, im, sqrt).value, x2 * y2 - Overlap(re, im);
      && pol.c1 > 0.0
      && pol.c2 * im == pol.c3 * re && pol.c2 * re + pol.c3 * im > 0.0
      && (pol.c2 * pol.c2 + pol.c3 * pol.c3) * (x2 - noise) == (pol.c1 * pol.c1) * (y2 - noise)
  {
    var t2 := Overlap(re, im);
    var noise := x2 * y2 - t2;
    EllipticDirection(x2 - noise, y2 - noise, re, im, t2, sqrt);
    hide Elliptic, Overlap;
  }

  lemma EllipticDirection(q: real, y: real, re: real, im: real, t2: real, sqrt: real -> real)
    requires IsSqrt(sqrt) && q > 0.0 && y > 0.0 && t2 > 0.0 && t2 == re * re + im * im
    ensures sqrt(q) > 0.0
    ensures var pol := Elliptic(sqrt(q), sqrt(y), re, im, t2, sqrt);
      && pol.c1 > 0.0
      && pol.c2 * im == pol.c3 * re && pol.c2 * re + pol.c3 * im > 0.0
      && (pol.c2 * pol.c2 + pol.c3 * pol.c3) * q == (pol.c1 * pol.c1) * y
  {
    RootIsPositive(sqrt, q);
    RootIsPositive(sqrt, y);
    RootIsPositive(sqrt, t2);
    var cosa, sina, root := sqrt(q), sqrt(y), sqrt(t2);
    var c2, c3 := Along(sina, re, root), Along(sina, im, root);
    AlongIs(sina, re, im, root, t2, c2, c3);
    var sum := SumOfSquares(cosa, c2, c3);
    RootIsPositive(sqrt, sum);
    var t := sqrt(sum);
    NormalisedDirection(cosa, c2, c3, t, re, im, q, y);
  }

  lemma AlongIs(sina: real, re: real, im: real, root: real, t2: real, c2: real, c3: real)
    requires sina > 0.0 && root > 0.0 && root * root == t2 == re * re + im * im
    requires c2 == Along(sina, re, root) && c3 == Along(sina, im, root)
    ensures c2 * im == c3 * re
    ensures c2 * re + c3 * im > 0.0
    ensures c2 * c2 + c3 * c3 == sina * sina
  {
    var k := sina / root;
    assert k * root == sina;
    QuotientOfProduct(sina, re, root, k);
    QuotientOfProduct(sina, im, root, k);
    assert c2 == k * re && c3 == k * im;
    assert c2 * re + c3 * im == k * t2;
    PositiveQuotient(sina, root, k);
    ProductIsPositive(root, root, t2);
    ProductIsPositive(k, t2, k * t2);
    assert c2 * c2 + c3 * c3 == (k * k) * t2;
    assert (k * k) * (root * root) == sina * sina;
  }

  lemma QuotientOfProduct(a: real, b: real, c: real, k: real)
    requires c > 0.0 && k * c == a
    ensures a * b / c == k * b
  {
    assert (k * b) * c == a * b;
    Cancel(a * b / c, k * b, c);
  }

  lemma PositiveQuotient(a: real, b: real, k: real)
    requires a > 0.0 && b > 0.0 && k * b == a
    ensures k > 0.0
  {
    if k <= 0.0 {
      ProductIsNotPositive(b, k, b * k);
    }
  }

  /** Dividing all three by t changes none of it. */
  lemma NormalisedDirection(c1: real, c2: real, c3: real, t: real, re: real, im: real, q: real, y: real)
    requires t > 0.0 && c1 > 0.0 && c1 * c1 == q && c2 * c2 + c3 * c3 == y
    requires c2 * im == c3 * re && c2 * re + c3 * im > 0.0
    ensures var d1, d2, d3 := c1 / t, c2 / t, c3 / t;
      && d1 > 0.0 && d2 * im == d3 * re && d2 * re + d3 * im > 0.0
      && (d2 * d2 + d3 * d3) * q == (d1 * d1) * y
  {
    var d1, d2, d3 := c1 / t, c2 / t, c3 / t;
    assert d1 * t == c1 && d2 * t == c2 && d3 * t == c3;
    PositiveQuotient(c1, t, d1);
    assert (d2 * im) * t == c2 * im && (d3 * re) * t == c3 * re;
    Cancel(d2 * im, d3 * re, t);
    var along := d2 * re + d3 * im;
    assert along * t == c2 * re + c3 * im;
    PositiveQuotient(c2 * re + c3 * im, t, along);
    var tt, a, b := t * t, d2 * d2 + d3 * d3, d1 * d1;
    assert a * tt == y by {
      assert (d2 * d2) * tt == (d2 * t) * (d2 * t) && (d3 * d3) * tt == (d3 * t) * (d3 * t);
    }
    assert b * tt == q by {
      assert (d1 * d1) * tt == (d1 * t) * (d1 * t);
    }
    assert a * q == a * (b * tt) == b * (a * tt) == b * y;
  }

  // ------------------------------------------------- one common polarisation

  /** All cells of the window carry one signal s in one state of polarisation:
      either only Y is excited, or Y = g X with the same complex g everywhere. */
  ghost predicate OneSource(cells: seq<Cell>, first: nat, count: nat, g: Option<Complex>)
    requires first < |cells| && count <= |cells|
  {
    forall d :: 0 <= d < count ==>
      var cell := cells[At(first, d, |cells|)];
      if g.None? then cell.x == Complex(0.0, 0.0) else cell.y == Times(g.value, cell.x)
  }

  /** What the sums look like for Y = g X, and for X = 0. */
  ghost predicate OneSourceSums(m: Moments, g: Option<Complex>) {
    if g.None? then m.x2 == 0.0 && m.reXY == 0.0 && m.imXY == 0.0
    else && m.y2 == (g.value.re * g.value.re + g.value.im * g.value.im) * m.x2
         && m.reXY == g.value.re * m.x2
         && m.imXY == -(g.value.im * m.x2)
  }

  lemma CellKeepsOneSource(m: Moments, cell: Cell, g: Option<Complex>)
    requires OneSourceSums(m, g)
    requires if g.None? then cell.x == Complex(0.0, 0.0) else cell.y == Times(g.value, cell.x)
    ensures OneSourceSums(AddCell(m, cell), g)
  {
  }

  lemma {:induction false} OneSourceMoments(cells: seq<Cell>, first: nat, count: nat, g: Option<Complex>)
    requires first < |cells| && count <= |cells|
    requires OneSource(cells, first, count, g)
    ensures OneSourceSums(WindowMoments(cells, first, count), g)
  {
    hide AddCell, Times, At;
    if count == 0 {
      assert OneSourceSums(Moments(0.0, 0.0, 0.0, 0.0), g);
    } else {
      OneSourceMoments(cells, first, count - 1, g);
      CellKeepsOneSource(WindowMoments(cells, first, count - 1), cells[At(first, count - 1, |cells|)], g);
    }
  }

  // The lemmas below name every product by a variable, so that the solver can
  // match it where it is used.

  /** With total t1 = (1+gg) s, the share of X is positive. */
  lemma ShareOfX(s: real, gg: real, y2: real, t1: real)
    requires gg >= 0.0 && y2 == gg * s && t1 == s + y2 && t1 > 0.0
    ensures s / t1 > 0.0
  {
    if s <= 0.0 {
      ProductIsNotPositive(gg, s, y2);
      assert false;
    }
    var q := s / t1;
    if q <= 0.0 {
      ProductIsNotPositive(t1, q, q * t1);
    }
  }

  lemma ShareScales(r: real, s: real, rs: real, q: real, t1: real)
    requires t1 > 0.0 && q == s / t1 && rs == r * s
    ensures rs / t1 == r * q
  {
    assert q * t1 == s;
    assert (r * q) * t1 == r * (q * t1);
    assert rs / t1 * t1 == rs;
    Cancel(rs / t1, r * q, t1);
  }

  lemma EqualSquares(a: real, b: real)
    requires a > 0.0 && b > 0.0 && a * a == b * b
    ensures a == b
  {
    assert (a - b) * (a + b) == 0.0;
  }

  /** sin(a) q / sqrt(y2 q) == cos(a), where cos(a)^2 = q and sin(a)^2 = y2. */
  lemma SineOverRoot(q: real, y2: real, t2: real, cosa: real, sina: real, root: real)
    requires q > 0.0 && y2 > 0.0 && cosa > 0.0 && sina > 0.0 && root > 0.0 && t2 == y2 * q
    requires cosa * cosa == q && sina * sina == y2 && root * root == t2
    ensures sina * q / root == cosa
  {
    var k := sina * q / root;
    assert k * root == sina * q;
    assert (k * k) * (root * root) == (sina * sina) * (q * q);
    assert (k * k) * (y2 * q) == q * (y2 * q);
    ProductIsPositive(y2, q, y2 * q);
    Cancel(k * k, q, y2 * q);
    ProductIsPositive(sina, q, sina * q);
    assert k > 0.0;
    EqualSquares(k, cosa);
  }

  lemma ScaledQuotient(sina: real, r: real, q: real, rq: real, root: real, cosa: real)
    requires root > 0.0 && sina * q / root == cosa && rq == r * q
    ensures Along(sina, rq, root) == cosa * r
  {
    assert cosa * root == sina * q;
    assert (cosa * r) * root == sina * (r * q);
    Cancel(sina * rq / root, cosa * r, root);
  }

  lemma NormalisedScales(c1: real, c2: real, c3: real, r: real, i: real, sqrt: real -> real)
    requires IsSqrt(sqrt) && c1 > 0.0 && c2 == c1 * r && c3 == c1 * i
    ensures var pol := Normalised(c1, c2, c3, sqrt); pol.c2 == pol.c1 * r && pol.c3 == pol.c1 * i
  {
    var t := sqrt(SumOfSquares(c1, c2, c3));
    RootIsPositive(sqrt, SumOfSquares(c1, c2, c3));
    hide SumOfSquares;
    ShareScales(r, c1, c2, c1 / t, t);
    ShareScales(i, c1, c3, c1 / t, t);
  }

  lemma EllipticOfOneSource(q: real, y2: real, re: real, im: real, t2: real, r: real, i: real, sqrt: real -> real)
    requires IsSqrt(sqrt)
    requires q > 0.0 && y2 > 0.0 && t2 > 0.0 && t2 == y2 * q && re == r * q && im == i * q
    ensures sqrt(q) > 0.0
    ensures var pol := Elliptic(sqrt(q), sqrt(y2), re, im, t2, sqrt); pol.c2 == pol.c1 * r && pol.c3 == pol.c1 * i
  {
    hide Normalised;
    RootIsPositive(sqrt, q);
    RootIsPositive(sqrt, y2);
    RootIsPositive(sqrt, t2);
    var cosa, sina, root := sqrt(q), sqrt(y2), sqrt(t2);
    SineOverRoot(q, y2, t2, cosa, sina, root);
    ScaledQuotient(sina, r, q, re, root, cosa);
    ScaledQuotient(sina, i, q, im, root, cosa);
    hide Along;
    NormalisedScales(cosa, Along(sina, re, root), Along(sina, im, root), r, i, sqrt);
  }

  lemma SharesOfOneSource(q: real, r: real, i: real, gg: real, y2: real, re: real, im: real, t2: real)
    requires gg == r * r + i * i && y2 == gg * q && re == r * q && im == i * q
    requires t2 == Overlap(re, im)
    ensures t2 == y2 * q
  {
  }

  lemma NoSquares(r: real, i: real)
    requires r * r + i * i <= 0.0
    ensures r == 0.0 && i == 0.0
  {
    var rr, ii := r * r, i * i;
    assert rr >= 0.0 && ii >= 0.0;
    if r != 0.0 {
      ProductIsPositive(if r > 0.0 then r else -r, if r > 0.0 then r else -r, rr);
    }
    if i != 0.0 {
      ProductIsPositive(if i > 0.0 then i else -i, if i > 0.0 then i else -i, ii);
    }
  }

  lemma OneSourceFromShares(q: real, r: real, i: real, gg: real, y2: real, re: real, im: real, sqrt: real -> real)
    requires IsSqrt(sqrt)
    requires q > 0.0 && gg == r * r + i * i
    requires y2 == gg * q && re == r * q && im == i * q
    ensures FromShares(q, y2, re, im, sqrt).Some?
    ensures var pol := FromShares(q, y2, re, im, sqrt).value; pol.c2 == pol.c1 * r && pol.c3 == pol.c1 * i
  {
    hide Elliptic, Overlap;
    var t2 := Overlap(re, im);
    SharesOfOneSource(q, r, i, gg, y2, re, im, t2);
    assert FromShares(q, y2, re, im, sqrt) == Chosen(q, y2, re, im, t2, 0.0, sqrt);
    if gg > 0.0 {
      ProductIsPositive(gg, q, y2);
      ProductIsPositive(y2, q, t2);
      EllipticOfOneSource(q, y2, re, im, t2, r, i, sqrt);
    } else {
      NoSquares(r, i);
    }
  }

  /** When one source fills the window, the fit succeeds and its direction is the source's. */
  lemma OneSourceIsFound(m: Moments, g: Option<Complex>, sqrt: real -> real)
    requires IsSqrt(sqrt) && m.x2 + m.y2 > 0.0
    requires OneSourceSums(m, g)
    ensures PolarisationOf(m, sqrt).Some?
    ensures var pol := PolarisationOf(m, sqrt).value;
      if g.None? then pol == Polarisation(0.0, 1.0, 0.0)
      else pol.c2 == pol.c1 * g.value.re && pol.c3 == pol.c1 * -g.value.im
  {
    var t1 := m.x2 + m.y2;
    if g.None? {
      assert m.x2 / t1 == 0.0 && m.reXY / t1 == 0.0 && m.imXY / t1 == 0.0;
    } else {
      hide FromShares;
      var r, i := g.value.re, -g.value.im;
      var gg := r * r + i * i;
      var q := m.x2 / t1;
      ShareOfX(m.x2, gg, m.y2, t1);
      ShareScales(gg, m.x2, m.y2, q, t1);
      ShareScales(r, m.x2, m.reXY, q, t1);
      ShareScales(i, m.x2, m.imXY, q, t1);
      OneSourceFromShares(q, r, i, gg, m.y2 / t1, m.reXY / t1, m.imXY / t1, sqrt);
    }
  }

  lemma OrthogonalIsSilent(pol: Polarisation, cell: Cell, g: Complex)
    requires cell.y == Times(g, cell.x)
    requires pol.c2 == pol.c1 * g.re && pol.c3 == pol.c1 * -g.im
    ensures ComponentB(pol, cell) == Complex(0.0, 0.0)
  {
  }

  /** A pulse with one state of polarisation ends up whole in component A: the
      orthogonal component is zero at every point of the window. */
  lemma AllSignalInA(cells: seq<Cell>, first: nat, count: nat, g: Option<Complex>, sqrt: real -> real)
    requires IsSqrt(sqrt) && first < |cells| && count <= |cells|
    requires OneSource(cells, first, count, g)
    requires var m := WindowMoments(cells, first, count); m.x2 + m.y2 > 0.0
    ensures var r := PolarisationOf(WindowMoments(cells, first, count), sqrt);
      && r.Some?
      && forall d :: 0 <= d < count ==>
           var cell := cells[At(first, d, |cells|)];
           ComponentB(r.value, cell) == Complex(0.0, 0.0) && Power(cell) == Norm2(ComponentA(r.value, cell))
  {
    hide PolarisationOf, ComponentA, ComponentB, Power, Times, Norm2, WindowMoments, OneSourceSums, At;
    var m := WindowMoments(cells, first, count);
    OneSourceMoments(cells, first, count, g);
    OneSourceIsFound(m, g, sqrt);
    var pol := PolarisationOf(m, sqrt).value;
    forall d | 0 <= d < count
      ensures var cell := cells[At(first, d, |cells|)];
        ComponentB(pol, cell) == Complex(0.0, 0.0) && Power(cell) == Norm2(ComponentA(pol, cell))
    {
      var cell := cells[At(first, d, |cells|)];
      if g.None? {
        YOnly(cell);
      } else {
        OrthogonalIsSilent(pol, cell, g.value);
      }
      SilentPower(pol, cell);
    }
  }

  lemma SilentPower(pol: Polarisation, cell: Cell)
    requires pol.IsUnit() && ComponentB(pol, cell) == Complex(0.0, 0.0)
    ensures Power(cell) == Norm2(ComponentA(pol, cell))
  {
    PowerSplits(pol, cell);
    hide ComponentA, ComponentB, Power;
  }

  lemma YOnly(cell: Cell)
    requires cell.x == Complex(0.0, 0.0)
    ensures ComponentB(Polarisation(0.0, 1.0, 0.0), cell) == Complex(0.0, 0.0)
  {
  }

  /** The sums are positive as soon as one cell of the window has power. */
  lemma {:induction false} MomentsArePowers(cells: seq<Cell>, first: nat, count: nat)
    requires first < |cells| && count <= |cells|
    ensures var m := WindowMoments(cells, first, count);
      m.x2 + m.y2 == WindowSum(Powers(cells), first, count)
  {
    if count > 0 {
      MomentsArePowers(cells, first, count - 1);
      var cell := cells[At(first, count - 1, |cells|)];
      CellAddsPower(WindowMoments(cells, first, count - 1), cell);
      assert Powers(cells)[At(first, count - 1, |cells|)] == Power(cell);
      hide AddCell, Power, At;
    }
  }

  lemma CellAddsPower(m: Moments, cell: Cell)
    ensures AddCell(m, cell).x2 + AddCell(m, cell).y2 == m.x2 + m.y2 + Power(cell)
  {
  }

  /** The summing loop of get_pulse_pol: width cells on each side of the maximum. */
  method SumMoments(cells: array<Cell>, pMax: nat, width: nat) returns (m: Moments)
    requires pMax < cells.Length && 2 * width + 1 < cells.Length
    ensures m == WindowMoments(cells[..], Back(pMax, width, cells.Length), 2 * width + 1)
  {
    hide AddCell, Back, At, Next, Prev;
    var n := cells.Length;
    ghost var first := Back(pMax, width, n);
    var pa, pb := Prev(Back(pMax, width, n), n), At(pMax, width, n);
    m := Moments(0.0, 0.0, 0.0, 0.0);
    ghost var s := cells[..];
    ghost var j := 0;
    WindowEnds(pMax, width, n);
    while pa != pb
      invariant 0 <= j <= 2 * width + 1
      invariant pa == At(Prev(first, n), j, n)
      invariant m == WindowMoments(s, first, j)
      decreases 2 * width + 1 - j
    {
      WalkStep(first, j, n);
      pa := Next(pa, n);
      m := AddCell(m, cells[pa]);
      j := j + 1;
    }
  }

  method GetPulsePol(cells: array<Cell>, pMax: nat, width: nat, sqrt: real -> real)
    returns (r: Option<Polarisation>)
    requires IsSqrt(sqrt) && pMax < cells.Length && 2 * width + 1 < cells.Length
    requires WindowSum(Powers(cells[..]), Back(pMax, width, cells.Length), 2 * width + 1) > 0.0
    ensures var m := WindowMoments(cells[..], Back(pMax, width, cells.Length), 2 * width + 1);
      m.x2 + m.y2 > 0.0 && r == PolarisationOf(m, sqrt)
    ensures r.Some? ==> r.value.IsUnit()
  {
    hide WindowMoments, WindowSum, Powers, Back;
    var m := SumMoments(cells, pMax, width);
    MomentsArePowers(cells[..], Back(pMax, width, cells.Length), 2 * width + 1);
    r := PolarisationOf(m, sqrt);
  }

  /** transform_timf2_pol: component A of every point of the window, in order. */
  method TransformToA(cells: array<Cell>, pMax: nat, width: nat, pol: Polarisation)
    returns (input: seq<Complex>)
    requires pMax < cells.Length && 2 * width + 1 < cells.Length
    ensures |input| == 2 * width + 1
    ensures forall d :: 0 <= d < |input| ==>
      input[d] == ComponentA(pol, cells[At(Back(pMax, width, cells.Length), d, cells.Length)])
  {
    hide ComponentA, Back, At, Next, Prev;
    var n := cells.Length;
    ghost var first := Back(pMax, width, n);
    var pa, pb := Prev(Back(pMax, width, n), n), At(pMax, width, n);
    input := [];
    WindowEnds(pMax, width, n);
    while pa != pb
      invariant |input| <= 2 * width + 1
      invariant pa == At(Prev(first, n), |input|, n)
      invariant forall d :: 0 <= d < |input| ==> input[d] == ComponentA(pol, cells[At(first, d, n)])
      decreases 2 * width + 1 - |input|
    {
      WalkStep(first, |input|, n);
      pa := Next(pa, n);
      input := input + [ComponentA(pol, cells[pa])];
    }
  }
}
