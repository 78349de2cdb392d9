/** The timeline cw[] of Morse parts: parts in time order, each with the cached
    distance to its predecessor around the baseband ring (cwdetect.c, cwspeed.c). */
module MorseTimeline {
  import opened CArithmetic
  import opened Runs
  import opened KeyingRamps

  datatype Wave = Wave(cohRe: real, cohIm: real, rawRe: real, rawIm: real)

  datatype Part = Part(kind: nat, unkn: nat, len: nat, midpoint: real, sep: real, wave: Wave)

  const CW_DASH := 252
  const CW_DOT := 253
  const CW_SPACE := 254
  const CW_WORDSEP := 255

  /** cw_item_len[255-type] */
  function ItemLen(kind: nat): nat
    requires CW_DASH <= kind <= CW_WORDSEP
  {
    if kind == CW_WORDSEP || kind == CW_DASH then 4 else 2
  }

  /** Distance forward from a to b around a ring of `size` points. */
  function Gap(a: real, b: real, size: real): real {
    if b - a < 0.0 then b - a + size else b - a
  }

  /** Going on from a by the gap leads to b, at most once past the end of the ring. */
  lemma GapLeads(a: real, b: real, size: real)
    requires 0.0 <= a < size && 0.0 <= b < size
    ensures 0.0 <= Gap(a, b, size) < size
    ensures a + Gap(a, b, size) == b || a + Gap(a, b, size) == b + size
  {
  }

  ghost predicate InRing(s: seq<Part>, size: real) {
    forall i :: 0 <= i < |s| ==> 0.0 <= s[i].midpoint < size
  }

  /** Every part but the first knows its distance to its predecessor. */
  ghost predicate Linked(s: seq<Part>, size: real) {
    forall i :: 1 <= i < |s| ==> s[i].sep == Gap(s[i - 1].midpoint, s[i].midpoint, size)
  }

  // -------------------------------------------------------------- check_cw

  predicate PairOk(p: Part, q: Part, size: real, neg: real)
    requires size > 0.0
  {
    var t1 := q.midpoint - p.midpoint;
    t1 <= neg
    && var t := (if t1 < 0.0 then t1 + size else t1) - q.sep;
       (if t < 0.0 then -t else t) / size <= 0.0000001
  }

  ghost predicate Checks(s: seq<Part>, links: bool, size: real, neg: real)
    requires size > 0.0
  {
    && (forall i :: 0 <= i < |s| ==> s[i].len != 0)
    && (links ==> forall i :: 1 <= i < |s| ==> PairOk(s[i - 1], s[i], size, neg))
  }

  /** For a linked timeline the check fails exactly at a part of no length or at a
      midpoint more than neg above its predecessor's, that is, at a step back over the
      start of the ring. */
  lemma LinkedChecksIff(s: seq<Part>, size: real, neg: real)
    requires size > 0.0 && Linked(s, size)
    ensures Checks(s, true, size, neg) <==>
      (forall i :: 0 <= i < |s| ==> s[i].len != 0)
      && (forall i :: 1 <= i < |s| ==> s[i].midpoint - s[i - 1].midpoint <= neg)
  {
    forall i | 1 <= i < |s|
      ensures PairOk(s[i - 1], s[i], size, neg) <==> s[i].midpoint - s[i - 1].midpoint <= neg
    {
      assert s[i].sep == Gap(s[i - 1].midpoint, s[i].midpoint, size);
    }
  }

  /** find_good_dashes appends in backward order, and check_cw is run after every append: on a
      checked timeline it passes if and only if the walk has not just stepped back over the
      start of the ring. */
  lemma AppendChecksIff(s: seq<Part>, item: Item, limits: Limits)
    requires limits.Valid() && CW_DASH <= item.kind <= CW_WORDSEP
    ensures Checks(Inserted(s, |s|, item, limits), true, limits.size, limits.neg) <==>
      && Checks(s, true, limits.size, limits.neg)
      && (|s| > 0 ==> item.midpoint - s[|s| - 1].midpoint <= limits.neg)
  {
    var r, size, neg := Inserted(s, |s|, item, limits), limits.size, limits.neg;
    assert r == s + [NewPart(s, |s|, item, limits)];
    assert |s| > 0 ==> (PairOk(s[|s| - 1], r[|s|], size, neg) <==> item.midpoint - s[|s| - 1].midpoint <= neg);
    hide PairOk, NewPart, Inserted;
    if Checks(r, true, size, neg) {
      assert forall i :: 0 <= i < |s| ==> s[i] == r[i];
      assert |s| > 0 ==> PairOk(r[|s| - 1], r[|s|], size, neg);
    }
  }

  // ------------------------------------------------------- unknown states

  /** (int)(r) & 0xfffffffe, and up by 2 when r is more than 1 above. */
  function EvenStates(r: real): int {
    var i := if r >= 0.0 then r.Floor else -((-r).Floor);
    var k := i - i % 2;
    if r - k as real > 1.0 then k + 2 else k
  }

  /** The number of unknown states is rounded to the nearest even number. */
  lemma EvenStatesIsNearest(r: real)
    ensures EvenStates(r) % 2 == 0
    ensures -1.0 <= r - EvenStates(r) as real <= 1.0
  {
  }

  /** Stored in an unsigned char. */
  function Unkn(r: real): nat {
    EvenStates(r) % 256
  }

  /** What fits the char is stored to the nearest even number. */
  lemma UnknIsNearest(r: real)
    requires 0.0 <= r <= 254.0
    ensures Unkn(r) % 2 == 0 && -1.0 <= r - Unkn(r) as real <= 1.0
  {
    EvenStatesIsNearest(r);
  }

  // ------------------------------------------------------------ insert_item

  /** Where and what is inserted: cg_wave_midpoint, the wave and the part type at cw_ptr. */
  datatype Item = Item(kind: nat, midpoint: real, wave: Wave)

  /** Ring size, negative limit, points per code unit, the oldest valid point, and the number
      of parts that the timeline is made for (max_cwdat). */
  datatype Limits = Limits(size: real, neg: real, unit: real, px: real, maxParts: nat) {
    ghost predicate Valid() {
      0.0 <= neg < size && unit > 0.0 && 0.0 <= px < size
    }
  }

  function NewPart(s: seq<Part>, ptr: nat, item: Item, limits: Limits): Part
    requires ptr <= |s| && CW_DASH <= item.kind <= CW_WORDSEP && limits.unit > 0.0
  {
    var from := if ptr == 0 then limits.px else s[ptr - 1].midpoint;
    var before := if ptr == 0 then 0 else s[ptr - 1].len;
    var r1 := Gap(from, item.midpoint, limits.size);
    var len := ItemLen(item.kind);
    Part(item.kind, Unkn(r1 / limits.unit - ((before + len) / 2) as real), len, item.midpoint, r1, item.wave)
  }

  /** The part that an insertion moves up; the source takes half of twice its own length off. */
  function Relinked(p: Part, midpoint: real, limits: Limits): Part
    requires limits.unit > 0.0
  {
    var r2 := Gap(midpoint, p.midpoint, limits.size);
    var r := r2 / limits.unit - ((p.len + p.len) / 2) as real;
    p.(sep := r2, unkn := Unkn(if r < 0.0 then 0.0 else r))
  }

  function Inserted(s: seq<Part>, ptr: nat, item: Item, limits: Limits): (r: seq<Part>)
    requires ptr <= |s| && CW_DASH <= item.kind <= CW_WORDSEP && limits.unit > 0.0
    ensures |r| == |s| + 1
  {
    s[..ptr] + [NewPart(s, ptr, item, limits)]
    + if ptr < |s| then [Relinked(s[ptr], item.midpoint, limits)] + s[ptr + 1..] else []
  }

  /** Parts of lengths a and b whose midpoints are `gap` apart have this even number of unknown
      states between them, to the nearest, where it fits the char. */
  ghost predicate HasStates(unkn: nat, gap: real, a: nat, b: nat, unit: real)
    requires unit > 0.0
  {
    var x := gap / unit - (a as real + b as real) / 2.0;
    0.0 <= x <= 254.0 && (a + b) % 2 == 0 ==> unkn % 2 == 0 && -1.0 <= x - unkn as real <= 1.0
  }

  lemma StatesAre(gap: real, a: nat, b: nat, unit: real)
    requires unit > 0.0 && (a + b) % 2 == 0
    ensures HasStates(Unkn(gap / unit - ((a + b) / 2) as real), gap, a, b, unit)
  {
    var x := gap / unit - ((a + b) / 2) as real;
    assert x == gap / unit - (a as real + b as real) / 2.0;
    if 0.0 <= x <= 254.0 {
      UnknIsNearest(x);
    }
    hide Unkn;
  }

  /** A dash or a word space takes four code units, a dot or a space two. */
  lemma NewPartIs(s: seq<Part>, ptr: nat, item: Item, limits: Limits)
    requires ptr <= |s| && CW_DASH <= item.kind <= CW_WORDSEP && limits.unit > 0.0
    ensures var p, before := NewPart(s, ptr, item, limits), if ptr == 0 then 0 else s[ptr - 1].len;
      && p.kind == item.kind && p.midpoint == item.midpoint && p.wave == item.wave
      && p.len == (if item.kind == 252 || item.kind == 255 then 4 else 2)
      && p.sep == Gap(if ptr == 0 then limits.px else s[ptr - 1].midpoint, p.midpoint, limits.size)
      && HasStates(p.unkn, p.sep, before, p.len, limits.unit)
  {
    var p, before := NewPart(s, ptr, item, limits), if ptr == 0 then 0 else s[ptr - 1].len;
    if (before + p.len) % 2 == 0 {
      StatesAre(p.sep, before, p.len, limits.unit);
    }
    hide Unkn, Gap;
  }

  lemma InsertKeepsLinks(s: seq<Part>, ptr: nat, item: Item, limits: Limits)
    requires ptr <= |s| && CW_DASH <= item.kind <= CW_WORDSEP && limits.Valid()
    requires Linked(s, limits.size)
    ensures Linked(Inserted(s, ptr, item, limits), limits.size)
  {
    hide Unkn, Gap;
    var r := Inserted(s, ptr, item, limits);
    forall i | 1 <= i < |r|
      ensures r[i].sep == Gap(r[i - 1].midpoint, r[i].midpoint, limits.size)
    {
      if i < ptr {
        assert r[i] == s[i] && r[i - 1] == s[i - 1];
      } else if i > ptr + 1 {
        assert r[i] == s[i - 1] && r[i - 1].midpoint == s[i - 2].midpoint;
      }
    }
  }

  /** An insertion splits the separation it falls into: nothing is lost around the ring,
      and nothing at all exactly when the new midpoint lies between its neighbours. */
  lemma InsertSplitsGap(s: seq<Part>, ptr: nat, item: Item, limits: Limits)
    requires 1 <= ptr < |s| && CW_DASH <= item.kind <= CW_WORDSEP && limits.Valid()
    requires Linked(s, limits.size) && InRing(s, limits.size) && 0.0 <= item.midpoint < limits.size
    ensures var r := Inserted(s, ptr, item, limits);
      && (r[ptr].sep + r[ptr + 1].sep == s[ptr].sep || r[ptr].sep + r[ptr + 1].sep == s[ptr].sep + limits.size)
      && (r[ptr].sep + r[ptr + 1].sep == s[ptr].sep <==> r[ptr].sep <= s[ptr].sep)
  {
    hide Unkn;
    var r := Inserted(s, ptr, item, limits);
    assert s[ptr].sep == Gap(s[ptr - 1].midpoint, s[ptr].midpoint, limits.size);
    assert 0.0 <= s[ptr - 1].midpoint < limits.size && 0.0 <= s[ptr].midpoint < limits.size;
  }

  // ------------------------------------------------------- close pairs

  /** The timeline without the parts p-1 and p; the two parts after them are linked anew. */
  function WithoutPair(s: seq<Part>, p: nat, size: real): (r: seq<Part>)
    requires 1 <= p < |s|
    ensures |r| == |s| - 2
  {
    var r := s[..p - 1] + s[p + 1..];
    var r1 := if 2 <= p && p - 1 < |r| then
                r[p - 1 := r[p - 1].(sep := Gap(r[p - 2].midpoint, r[p - 1].midpoint, size))]
              else r;
    if p < |r1| then r1[p := r1[p].(sep := Gap(r1[p - 1].midpoint, r1[p].midpoint, size))] else r1
  }

  /** The elimination pass from position p on. */
  function Eliminated(s: seq<Part>, p: nat, size: real, unit: real): (r: seq<Part>)
    requires 1 <= p && unit > 0.0
    decreases |s| - p
  {
    if p >= |s| then s
    else if s[p].sep / unit < 3.0 then Eliminated(WithoutPair(s, p, size), p, size, unit)
    else Eliminated(s, p + 1, size, unit)
  }

  function Midpoints(s: seq<Part>): (m: seq<real>)
    ensures |m| == |s|
  {
    seq(|s|, i requires 0 <= i < |s| => s[i].midpoint)
  }

  /** The same pass as one scan over the separations as they were: drop both dashes of a
      close pair, keep any other dash. */
  function KeptMidpoints(s: seq<Part>, unit: real): seq<real>
    requires unit > 0.0
  {
    if |s| < 2 then Midpoints(s)
    else if s[1].sep / unit < 3.0 then KeptMidpoints(s[2..], unit)
    else [s[0].midpoint] + KeptMidpoints(s[1..], unit)
  }

  /** The separations ahead of position p are those of the timeline `orig` that is left to scan. */
  ghost predicate SameAhead(s: seq<Part>, p: nat, orig: seq<Part>) {
    && 1 <= p && |s| == p - 1 + |orig|
    && (forall i :: 0 <= i < |orig| ==> s[p - 1 + i].midpoint == orig[i].midpoint)
    && (forall i :: 1 <= i < |orig| ==> s[p - 1 + i].sep == orig[i].sep)
  }

  lemma AheadAfterRemoval(s: seq<Part>, p: nat, orig: seq<Part>, size: real)
    requires Linked(orig, size) && SameAhead(s, p, orig) && |orig| >= 2
    ensures Linked(orig[2..], size) && SameAhead(WithoutPair(s, p, size), p, orig[2..])
    ensures Midpoints(WithoutPair(s, p, size))[..p - 1] == Midpoints(s)[..p - 1]
  {
    hide Gap;
    var r, rest := WithoutPair(s, p, size), orig[2..];
    forall i | 0 <= i < |r|
      ensures r[i].midpoint == s[if i < p - 1 then i else i + 2].midpoint
    {
    }
    forall i | 1 <= i < |rest|
      ensures r[p - 1 + i].sep == rest[i].sep
      ensures rest[i].sep == Gap(rest[i - 1].midpoint, rest[i].midpoint, size)
    {
      assert s[p - 1 + (i + 2)].sep == orig[i + 2].sep;
      assert orig[i + 2].sep == Gap(orig[i + 1].midpoint, orig[i + 2].midpoint, size);
      assert s[p - 1 + (i + 1)].midpoint == orig[i + 1].midpoint && s[p - 1 + (i + 2)].midpoint == orig[i + 2].midpoint;
    }
    forall i | 0 <= i < |rest|
      ensures r[p - 1 + i].midpoint == rest[i].midpoint
    {
      assert s[p - 1 + (i + 2)].midpoint == orig[i + 2].midpoint;
    }
  }

  lemma AheadOneOn(s: seq<Part>, p: nat, orig: seq<Part>, size: real)
    requires Linked(orig, size) && SameAhead(s, p, orig) && |orig| >= 2
    ensures Linked(orig[1..], size) && SameAhead(s, p + 1, orig[1..])
    ensures Midpoints(s)[..p] == Midpoints(s)[..p - 1] + [orig[0].midpoint]
  {
    hide Gap;
    var rest := orig[1..];
    forall i | 1 <= i < |rest|
      ensures s[p + i].sep == rest[i].sep
      ensures rest[i].sep == Gap(rest[i - 1].midpoint, rest[i].midpoint, size)
    {
      assert s[p - 1 + (i + 1)].sep == orig[i + 1].sep;
    }
    forall i | 0 <= i < |rest|
      ensures s[p + i].midpoint == rest[i].midpoint
    {
      assert s[p - 1 + (i + 1)].midpoint == orig[i + 1].midpoint;
    }
  }

  /** The relinking in place never changes which dashes are kept. */
  lemma {:induction false} EliminationIsAScan(s: seq<Part>, p: nat, orig: seq<Part>, size: real, unit: real)
    requires unit > 0.0 && Linked(orig, size) && SameAhead(s, p, orig)
    ensures Midpoints(Eliminated(s, p, size, unit)) == Midpoints(s)[..p - 1] + KeptMidpoints(orig, unit)
    decreases |orig|
  {
    hide Gap, Linked, WithoutPair;
    if |orig| < 2 {
      assert Midpoints(s) == Midpoints(s)[..p - 1] + Midpoints(orig);
    } else {
      assert s[p].sep == orig[1].sep by {
        assert s[p - 1 + 1].sep == orig[1].sep;
      }
      hide SameAhead, Midpoints;
      if s[p].sep / unit < 3.0 {
        AheadAfterRemoval(s, p, orig, size);
        EliminationIsAScan(WithoutPair(s, p, size), p, orig[2..], size, unit);
      } else {
        AheadOneOn(s, p, orig, size);
        EliminationIsAScan(s, p + 1, orig[1..], size, unit);
      }
    }
  }

  // ------------------------------------------------ spacing after the pass

  /** A timeline shorter than the ring: seen from some point `base`, the midpoints come in order. */
  ghost predicate InOrder(s: seq<Part>, base: real, size: real) {
    && 0.0 <= base < size && InRing(s, size)
    && forall i, j :: 0 <= i < j < |s| ==> Gap(base, s[i].midpoint, size) <= Gap(base, s[j].midpoint, size)
  }

  /** The first p parts are three code units or more apart. */
  ghost predicate SpacedBelow(s: seq<Part>, p: nat, unit: real)
    requires unit > 0.0
  {
    forall i :: 1 <= i < p && i < |s| ==> s[i].sep / unit >= 3.0
  }

  lemma GapOfOrdered(base: real, a: real, b: real, size: real)
    requires 0.0 <= base < size && 0.0 <= a < size && 0.0 <= b < size
    requires Gap(base, a, size) <= Gap(base, b, size)
    ensures Gap(a, b, size) == Gap(base, b, size) - Gap(base, a, size)
  {
  }

  lemma LongerStaysSpaced(x: real, y: real, unit: real)
    requires unit > 0.0 && x <= y && x / unit >= 3.0
    ensures y / unit >= 3.0
  {
  }

  lemma MidpointsLeft(s: seq<Part>, p: nat, size: real)
    requires 1 <= p < |s|
    ensures var r := WithoutPair(s, p, size);
      && (forall i :: 0 <= i < |r| ==> r[i].midpoint == s[if i < p - 1 then i else i + 2].midpoint)
      && (forall i :: 0 <= i < |r| && i != p - 1 && i != p ==> r[i].sep == s[if i < p - 1 then i else i + 2].sep)
      && (2 <= p && p - 1 < |r| ==> r[p - 1].sep == Gap(s[p - 2].midpoint, s[p + 1].midpoint, size))
      && (p < |r| ==> r[p].sep == Gap(s[p + 1].midpoint, s[p + 2].midpoint, size))
  {
    hide Gap;
  }

  lemma RemovalKeepsLinks(s: seq<Part>, p: nat, size: real)
    requires 1 <= p < |s| && Linked(s, size)
    ensures Linked(WithoutPair(s, p, size), size)
  {
    hide Gap;
    MidpointsLeft(s, p, size);
    var r := WithoutPair(s, p, size);
    hide WithoutPair;
    forall i | 1 <= i < |r|
      ensures r[i].sep == Gap(r[i - 1].midpoint, r[i].midpoint, size)
    {
      if i != p - 1 && i != p {
        var k := if i < p - 1 then i else i + 2;
        assert s[k].sep == Gap(s[k - 1].midpoint, s[k].midpoint, size);
      }
    }
  }

  lemma RemovalKeepsOrder(s: seq<Part>, p: nat, base: real, size: real)
    requires 1 <= p < |s| && InOrder(s, base, size)
    ensures InOrder(WithoutPair(s, p, size), base, size)
  {
    hide Gap;
    MidpointsLeft(s, p, size);
    hide WithoutPair;
  }

  lemma RemovalKeepsSpaces(s: seq<Part>, p: nat, base: real, size: real, unit: real)
    requires unit > 0.0 && 1 <= p < |s|
    requires Linked(s, size) && InOrder(s, base, size) && SpacedBelow(s, p, unit)
    ensures SpacedBelow(WithoutPair(s, p, size), p, unit)
  {
    MidpointsLeft(s, p, size);
    var r := WithoutPair(s, p, size);
    hide WithoutPair;
    if 2 <= p && p - 1 < |r| {
      var a, b, c := s[p - 2].midpoint, s[p - 1].midpoint, s[p + 1].midpoint;
      GapOfOrdered(base, a, b, size);
      GapOfOrdered(base, a, c, size);
      assert s[p - 1].sep == Gap(a, b, size) && r[p - 1].sep == Gap(a, c, size);
      LongerStaysSpaced(s[p - 1].sep, r[p - 1].sep, unit);
    }
    hide Gap, Linked, InOrder;
    forall i | 1 <= i < p && i < |r|
      ensures r[i].sep / unit >= 3.0
    {
      assert i < p - 1 ==> r[i].sep == s[i].sep;
    }
  }

  lemma PairRemovalKeepsOrder(s: seq<Part>, p: nat, base: real, size: real, unit: real)
    requires unit > 0.0 && 1 <= p < |s|
    requires Linked(s, size) && InOrder(s, base, size) && SpacedBelow(s, p, unit)
    ensures var r := WithoutPair(s, p, size);
      Linked(r, size) && InOrder(r, base, size) && SpacedBelow(r, p, unit)
  {
    hide Linked, InOrder, SpacedBelow, WithoutPair;
    RemovalKeepsLinks(s, p, size);
    RemovalKeepsOrder(s, p, base, size);
    RemovalKeepsSpaces(s, p, base, size, unit);
  }

  /** After the pass no two neighbouring dashes are closer than three code units, although
      pairs that a removal has made neighbours are not looked at again. */
  lemma {:induction false} EliminationSpaces(s: seq<Part>, p: nat, base: real, size: real, unit: real)
    requires unit > 0.0 && 1 <= p
    requires Linked(s, size) && InOrder(s, base, size) && SpacedBelow(s, p, unit)
    ensures var r := Eliminated(s, p, size, unit);
      Linked(r, size) && InOrder(r, base, size) && SpacedBelow(r, |r|, unit)
    decreases |s| - p
  {
    hide Gap, Linked, InOrder;
    if p < |s| {
      if s[p].sep / unit < 3.0 {
        PairRemovalKeepsOrder(s, p, base, size, unit);
        EliminationSpaces(WithoutPair(s, p, size), p, base, size, unit);
      } else {
        EliminationSpaces(s, p + 1, base, size, unit);
      }
    }
  }

  /** On a timeline that goes more than once around the ring this fails: the pair in the
      middle goes, and the dashes left over are 1 unit apart. */
  lemma EliminationNeedsOrder()
    ensures var w := Wave(0.0, 0.0, 0.0, 0.0);
      var s := [Part(CW_DASH, 0, 4, 0.0, 0.0, w), Part(CW_DASH, 0, 4, 50.0, 50.0, w),
                Part(CW_DASH, 0, 4, 51.0, 1.0, w), Part(CW_DASH, 0, 4, 1.0, 50.0, w)];
      && Linked(s, 100.0) && InRing(s, 100.0)
      && var r := Eliminated(s, 1, 100.0, 1.0);
         |r| == 2 && r[1].sep == 1.0
  {
    var w := Wave(0.0, 0.0, 0.0, 0.0);
    var s := [Part(CW_DASH, 0, 4, 0.0, 0.0, w), Part(CW_DASH, 0, 4, 50.0, 50.0, w),
              Part(CW_DASH, 0, 4, 51.0, 1.0, w), Part(CW_DASH, 0, 4, 1.0, 50.0, w)];
    var r := WithoutPair(s, 2, 100.0);
    assert |r| == 2 && r[1].sep == 1.0;
    assert Eliminated(s, 1, 100.0, 1.0) == Eliminated(s, 2, 100.0, 1.0);
    assert Eliminated(s, 2, 100.0, 1.0) == Eliminated(r, 2, 100.0, 1.0) == r;
  }

  // ----------------------------------------------------- the array cw[]

  /** Make room at ptr: the parts from there on move up by one. */
  method ShiftUp(cw: array<Part>, ptr: nat, count: nat)
    requires ptr <= count < cw.Length
    modifies cw
    ensures cw[..ptr] == old(cw[..ptr]) && cw[ptr + 1..count + 1] == old(cw[ptr..count])
    ensures ptr < count ==> cw[ptr] == old(cw[ptr])
  {
    var i := count;
    while i > ptr
      invariant ptr <= i <= count
      invariant forall k :: 0 <= k < cw.Length && (k <= i || k > count) ==> cw[k] == old(cw[k])
      invariant forall k :: i < k <= count ==> cw[k] == old(cw[k - 1])
    {
      cw[i] := cw[i - 1];
      i := i - 1;
    }
  }

  /** Close the gap left by the parts p-1 and p: the parts after them move down by two. */
  method ShiftDown(cw: array<Part>, p: nat, count: nat)
    requires 1 <= p < count <= cw.Length
    modifies cw
    ensures cw[..count - 2] == old(cw[..p - 1]) + old(cw[p + 1..count])
  {
    var i, j := p - 1, p + 1;
    ghost var was := cw[..];
    while j < count
      invariant p - 1 <= i && j == i + 2 <= count
      invariant forall k :: 0 <= k < cw.Length && !(p - 1 <= k < i) ==> cw[k] == old(cw[k])
      invariant forall k :: p - 1 <= k < i ==> cw[k] == old(cw[k + 2])
    {
      cw[i] := cw[j];
      i := i + 1;
      j := j + 1;
    }
    assert cw[..count - 2] == was[..p - 1] + was[p + 1..count];
  }

  function Reversed<T>(s: seq<T>): (r: seq<T>)
    ensures |r| == |s|
  {
    seq(|s|, i requires 0 <= i < |s| => s[|s| - 1 - i])
  }

  method ReverseTail(cw: array<Part>, from: nat, count: nat)
    requires from <= count <= cw.Length
    modifies cw
    ensures cw[..count] == old(cw[..from]) + Reversed(old(cw[from..count]))
  {
    ghost var was := cw[..];
    if count - from > 1 {
      var i, j := count - 1, from;
      while j < i
        invariant from <= j <= i + 1 <= count && i + j == from + count - 1
        invariant forall k :: 0 <= k < cw.Length && !(from <= k < j || i < k < count) ==> cw[k] == old(cw[k])
        invariant forall k :: from <= k < j || i < k < count ==> cw[k] == old(cw[from + count - 1 - k])
      {
        cw[i], cw[j] := cw[j], cw[i];
        j := j + 1;
        i := i - 1;
      }
    }
    assert cw[from..count] == Reversed(was[from..count]);
    assert cw[..count] == was[..from] + cw[from..count];
  }

  // ---------------------------------------------------- find_good_dashes

  ghost predicate AreItems(items: seq<Item>) {
    forall i :: 0 <= i < |items| ==> CW_DASH <= items[i].kind <= CW_WORDSEP
  }

  datatype DashFit = DashFit(quality: real, midpoint: real, wave: Wave)

  const DASH_DETECT_LIMIT := 0.82

  /** The dashes found at the ends of key-down runs: runs of 0.4 to 1.5 dash lengths
      that fit the dash waveform, in the order of the ends. */
  function GoodDashes(ramps: seq<int>, ends: seq<nat>, dashPts: nat, fit: nat -> DashFit): (items: seq<Item>)
    requires forall i :: 0 <= i < |ends| ==> ends[i] < |ramps|
    ensures |items| <= |ends| && AreItems(items)
  {
    if ends == [] then []
    else
      var before := GoodDashes(ramps, ends[..|ends| - 1], dashPts, fit);
      var e := ends[|ends| - 1];
      var f := fit(DashStart(ramps[e], e, dashPts, |ramps|));
      if 2 * dashPts / 5 <= ramps[e] <= 3 * dashPts / 2 && f.quality > DASH_DETECT_LIMIT
      then before + [Item(CW_DASH, f.midpoint, f.wave)] else before
  }

  /** Where a dash centred on the run begins. */
  function DashStart(r: int, e: nat, dashPts: nat, n: nat): nat
    requires n > 0
  {
    (e - (r + dashPts) / 2) % n
  }

  /** A run of r points that ends at e is a dash: its length is between 0.4 and 1.5 dash lengths
      (both cut to whole points), and the waveform fits it where it is centred on the run. */
  ghost predicate IsGoodDash(r: int, e: nat, dashPts: nat, fit: nat -> DashFit, n: nat, start: nat) {
    && 5 * r > 2 * dashPts - 5 && 2 * r <= 3 * dashPts
    && start < n && (start + (r + dashPts) / 2) % n == e
    && fit(start).quality > 0.82
  }

  lemma GoodDashIff(r: int, e: nat, dashPts: nat, fit: nat -> DashFit, n: nat, start: nat)
    requires e < n
    ensures IsGoodDash(r, e, dashPts, fit, n, start) <==>
      && 2 * dashPts / 5 <= r <= 3 * dashPts / 2
      && start == DashStart(r, e, dashPts, n) && fit(start).quality > DASH_DETECT_LIMIT
  {
    var k := (r + dashPts) / 2;
    CentredOn(e, k, start, n);
  }

  /** There is one place from where k points on are e. */
  lemma CentredOn(e: nat, k: int, start: nat, n: nat)
    requires e < n
    ensures start < n && (start + k) % n == e <==> start == (e - k) % n
  {
    var m, x := (e - k) / n, (e - k) % n;
    if start == x {
      Negate(m, n);
      Remainder(start + k, 0 - m, n, e);
    }
    if start < n && (start + k) % n == e {
      var m' := (start + k) / n;
      Negate(m', n);
      Remainder(e - k, 0 - m', n, start);
    }
  }

  lemma Negate(m: int, n: int)
    ensures (0 - m) * n == 0 - m * n
  {
  }

  /** The item is the fit of the dash that ends at e. */
  ghost predicate IsFound(ramps: seq<int>, e: nat, dashPts: nat, fit: nat -> DashFit, item: Item)
    requires e < |ramps|
  {
    exists start: nat ::
      IsGoodDash(ramps[e], e, dashPts, fit, |ramps|, start) && item == Item(CW_DASH, fit(start).midpoint, fit(start).wave)
  }

  ghost predicate Rises(at: seq<nat>) {
    forall i, j :: 0 <= i < j < |at| ==> at[i] < at[j]
  }

  /** `at` holds the places of the dashes among the ends, each once and in order, and the items
      are those dashes. */
  ghost predicate AreFound(ramps: seq<int>, ends: seq<nat>, dashPts: nat, fit: nat -> DashFit, items: seq<Item>, at: seq<nat>)
    requires forall i :: 0 <= i < |ends| ==> ends[i] < |ramps|
  {
    && |at| == |items| && Rises(at)
    && (forall k :: 0 <= k < |at| ==> at[k] < |ends| && IsFound(ramps, ends[at[k]], dashPts, fit, items[k]))
    && forall i: nat, start: nat :: i < |ends| && IsGoodDash(ramps[ends[i]], ends[i], dashPts, fit, |ramps|, start) ==> i in at
  }

  /** Exactly the ends of runs that are dashes are found, in their order. */
  lemma {:induction false} GoodDashesAre(ramps: seq<int>, ends: seq<nat>, dashPts: nat, fit: nat -> DashFit) returns (at: seq<nat>)
    requires forall i :: 0 <= i < |ends| ==> ends[i] < |ramps|
    ensures AreFound(ramps, ends, dashPts, fit, GoodDashes(ramps, ends, dashPts, fit), at)
  {
    at := [];
    if ends != [] {
      var front, e := ends[..|ends| - 1], ends[|ends| - 1];
      at := GoodDashesAre(ramps, front, dashPts, fit);
      var start := DashStart(ramps[e], e, dashPts, |ramps|);
      forall x: nat
        ensures IsGoodDash(ramps[e], e, dashPts, fit, |ramps|, x) <==>
          2 * dashPts / 5 <= ramps[e] <= 3 * dashPts / 2 && x == start && fit(start).quality > DASH_DETECT_LIMIT
      {
        GoodDashIff(ramps[e], e, dashPts, fit, |ramps|, x);
      }
      hide IsGoodDash, DashStart;
      if 2 * dashPts / 5 <= ramps[e] <= 3 * dashPts / 2 && fit(start).quality > DASH_DETECT_LIMIT {
        FoundOneMore(ramps, front, e, dashPts, fit, GoodDashes(ramps, front, dashPts, fit), at, start);
        at := at + [|front|];
      } else {
        FoundNoMore(ramps, front, e, dashPts, fit, GoodDashes(ramps, front, dashPts, fit), at);
      }
      assert front + [e] == ends;
    }
  }

  lemma FoundOneMore(ramps: seq<int>, ends: seq<nat>, e: nat, dashPts: nat, fit: nat -> DashFit,
                     items: seq<Item>, at: seq<nat>, start: nat)
    requires e < |ramps| && forall i :: 0 <= i < |ends| ==> ends[i] < |ramps|
    requires AreFound(ramps, ends, dashPts, fit, items, at) && IsGoodDash(ramps[e], e, dashPts, fit, |ramps|, start)
    ensures AreFound(ramps, ends + [e], dashPts, fit, items + [Item(CW_DASH, fit(start).midpoint, fit(start).wave)], at + [|ends|])
  {
    hide IsGoodDash;
    var all, found, at' := ends + [e], items + [Item(CW_DASH, fit(start).midpoint, fit(start).wave)], at + [|ends|];
    assert forall i :: 0 <= i < |ends| ==> all[i] == ends[i];
    forall k | 0 <= k < |at'|
      ensures at'[k] < |all| && IsFound(ramps, all[at'[k]], dashPts, fit, found[k])
    {
      if k < |at| {
        assert IsFound(ramps, ends[at[k]], dashPts, fit, items[k]);
      }
    }
    assert forall i :: i in at ==> i in at';
    assert |ends| in at';
  }

  lemma FoundNoMore(ramps: seq<int>, ends: seq<nat>, e: nat, dashPts: nat, fit: nat -> DashFit, items: seq<Item>, at: seq<nat>)
    requires e < |ramps| && forall i :: 0 <= i < |ends| ==> ends[i] < |ramps|
    requires AreFound(ramps, ends, dashPts, fit, items, at)
    requires forall start: nat :: !IsGoodDash(ramps[e], e, dashPts, fit, |ramps|, start)
    ensures AreFound(ramps, ends + [e], dashPts, fit, items, at)
  {
    hide IsGoodDash;
    var all := ends + [e];
    assert forall i :: 0 <= i < |ends| ==> all[i] == ends[i];
    forall k | 0 <= k < |at|
      ensures at[k] < |all| && IsFound(ramps, all[at[k]], dashPts, fit, items[k])
    {
      assert IsFound(ramps, ends[at[k]], dashPts, fit, items[k]);
    }
  }

  /** What was inserted as these parts. */
  function Items(s: seq<Part>): (items: seq<Item>)
    ensures |items| == |s|
  {
    seq(|s|, i requires 0 <= i < |s| => Item(s[i].kind, s[i].midpoint, s[i].wave))
  }

  /** Separations and unknown states of the parts from `from` on, computed afresh. */
  function LinkedFrom(s: seq<Part>, from: nat, limits: Limits): (r: seq<Part>)
    requires limits.unit > 0.0
    ensures |r| == |s|
  {
    seq(|s|, i requires 0 <= i < |s| => if 1 <= i && from <= i then LinkedTo(s[i - 1], s[i], limits) else s[i])
  }

  function LinkedTo(p: Part, q: Part, limits: Limits): Part
    requires limits.unit > 0.0
  {
    var t1 := Gap(p.midpoint, q.midpoint, limits.size);
    q.(sep := t1, unkn := Unkn(t1 / limits.unit - ((q.len + p.len) / 2) as real))
  }

  lemma LinkedToIs(p: Part, q: Part, limits: Limits)
    requires limits.unit > 0.0
    ensures var r := LinkedTo(p, q, limits);
      && r == q.(sep := r.sep, unkn := r.unkn) && r.sep == Gap(p.midpoint, q.midpoint, limits.size)
      && HasStates(r.unkn, r.sep, p.len, q.len, limits.unit)
  {
    if (q.len + p.len) % 2 == 0 {
      StatesAre(Gap(p.midpoint, q.midpoint, limits.size), p.len, q.len, limits.unit);
    }
    hide Unkn, Gap;
  }

  lemma LinkingLinks(s: seq<Part>, from: nat, limits: Limits)
    requires limits.unit > 0.0 && from <= |s| && Linked(s[..from], limits.size)
    ensures Linked(LinkedFrom(s, from, limits), limits.size)
    ensures Midpoints(LinkedFrom(s, from, limits)) == Midpoints(s)
    ensures LinkedFrom(s, from, limits)[..from] == s[..from]
  {
    hide Gap, Unkn;
    var r := LinkedFrom(s, from, limits);
    forall i | 1 <= i < |r|
      ensures r[i].sep == Gap(r[i - 1].midpoint, r[i].midpoint, limits.size)
    {
      assert i < from ==> s[..from][i] == s[i] && s[..from][i - 1] == s[i - 1];
    }
  }

  /** The parts before i are linked anew. */
  ghost predicate IsLinkedTo(s: seq<Part>, now: seq<Part>, from: nat, i: nat, limits: Limits)
    requires limits.unit > 0.0
  {
    |now| == |s| && i <= |s| && now == LinkedFrom(s, from, limits)[..i] + s[i..]
  }

  lemma LinkStep(s: seq<Part>, now: seq<Part>, from: nat, i: nat, limits: Limits)
    requires limits.unit > 0.0 && 1 <= i < |s| && from <= i && IsLinkedTo(s, now, from, i, limits)
    ensures IsLinkedTo(s, now[i := LinkedTo(now[i - 1], now[i], limits)], from, i + 1, limits)
  {
    hide Gap, Unkn;
    var goal := LinkedFrom(s, from, limits);
    assert now[i - 1] == goal[i - 1] && now[i] == s[i];
    assert goal[i] == LinkedTo(s[i - 1], s[i], limits) == LinkedTo(goal[i - 1], s[i], limits);
  }

  lemma LinkEnds(s: seq<Part>, now: seq<Part>, from: nat, i: nat, limits: Limits)
    requires limits.unit > 0.0 && from <= |s|
    ensures i == (if from == 0 then 1 else from) && i <= |s| ==> IsLinkedTo(s, s, from, i, limits)
    ensures i == |s| && IsLinkedTo(s, now, from, i, limits) ==> now == LinkedFrom(s, from, limits)
    ensures |s| == 0 ==> LinkedFrom(s, from, limits) == s
  {
    hide LinkedTo;
    var first := if from == 0 then 1 else from;
    if i == first <= |s| {
      assert LinkedFrom(s, from, limits)[..i] == s[..i];
    }
  }

  lemma EndsInRing(ends: seq<nat>, early: bool, pe: nat, neg: nat, ia: nat, ic: nat, lo: nat, d: seq<bool>, n: nat)
    requires IsWalk(ends, early, pe, neg, ia, ic, lo, d, n)
    ensures forall i :: 0 <= i < |ends| ==> ends[i] < n
  {
  }

  /** One more insert_item at the end of the timeline. */
  ghost function AppendedTo(s: (seq<Part>, bool), item: Item, limits: Limits): (seq<Part>, bool)
    requires limits.Valid() && CW_DASH <= item.kind <= CW_WORDSEP
  {
    if s.1 || !Checks(s.0, true, limits.size, limits.neg) then (s.0, true)
    else
      var t := Inserted(s.0, |s.0|, item, limits);
      (t, |t| > limits.maxParts || !Checks(t, true, limits.size, limits.neg))
  }

  /** Appending items one after the other; the second part tells whether that was stopped. */
  ghost function Appending(s: seq<Part>, items: seq<Item>, limits: Limits): (seq<Part>, bool)
    requires limits.Valid() && AreItems(items)
  {
    if items == [] then (s, false)
    else AppendedTo(Appending(s, items[..|items| - 1], limits), items[|items| - 1], limits)
  }

  lemma NothingAppended(s: seq<Part>, limits: Limits)
    requires limits.Valid()
    ensures Appending(s, [], limits) == (s, false)
  {
  }

  lemma AppendingNext(s: seq<Part>, items: seq<Item>, item: Item, limits: Limits)
    requires limits.Valid() && AreItems(items) && CW_DASH <= item.kind <= CW_WORDSEP
    ensures AreItems(items + [item])
    ensures Appending(s, items + [item], limits) == AppendedTo(Appending(s, items, limits), item, limits)
  {
    hide AppendedTo;
    assert (items + [item])[..|items|] == items;
  }

  lemma {:induction false} AppendingGrows(s: seq<Part>, items: seq<Item>, limits: Limits)
    requires limits.Valid() && AreItems(items)
    ensures s <= Appending(s, items, limits).0
  {
    hide Checks;
    if items != [] {
      AppendingGrows(s, items[..|items| - 1], limits);
    }
  }

  /** What find_good_dashes leaves of a timeline s when it appends these items. */
  ghost function FoundDashes(s: seq<Part>, items: seq<Item>, limits: Limits): (seq<Part>, bool)
    requires limits.Valid() && AreItems(items)
  {
    AppendingGrows(s, items, limits);
    var t := Appending(s, items, limits);
    (LinkedFrom(t.0[..|s|] + Reversed(t.0[|s|..]), |s|, limits), t.1)
  }

  /** The i-th item to append lies more than neg above the part it would follow. */
  predicate JumpsUp(s: seq<Part>, items: seq<Item>, i: nat, neg: real) {
    && i < |items| && i + |s| > 0
    && items[i].midpoint - (if i > 0 then items[i - 1].midpoint else s[|s| - 1].midpoint) > neg
  }

  /** The i-th item stops the appending: it jumps up, or it is one part too many. */
  predicate Stops(s: seq<Part>, items: seq<Item>, i: nat, limits: Limits) {
    i < |items| && (JumpsUp(s, items, i, limits.neg) || |s| + i >= limits.maxParts)
  }

  /** The items through the first one that stops the appending are kept, or all if none does;
      from a timeline that does not pass check_cw none is. */
  ghost predicate IsKept(s: seq<Part>, items: seq<Item>, kept: nat, limits: Limits)
    requires limits.Valid()
  {
    && kept <= |items|
    && (forall i :: 0 <= i < kept - 1 ==> !Stops(s, items, i, limits))
    && if Checks(s, true, limits.size, limits.neg) then kept < |items| ==> kept > 0 && Stops(s, items, kept - 1, limits)
       else kept == 0
  }

  /** check_cw or the end of the table stops the appending. */
  ghost predicate IsStopped(s: seq<Part>, items: seq<Item>, limits: Limits)
    requires limits.Valid()
  {
    items != [] && (!Checks(s, true, limits.size, limits.neg) || exists i: nat :: Stops(s, items, i, limits))
  }

  ghost predicate Appended(s: seq<Part>, t: seq<Part>, items: seq<Item>) {
    |t| == |s| + |items| && t[..|s|] == s && Items(t[|s|..]) == items
  }

  /** The items are the parts behind s, last one first. */
  ghost predicate AreTurned(s: seq<Part>, v: seq<Part>, items: seq<Item>) {
    && |v| == |s| + |items| && s <= v
    && forall k :: |s| <= k < |v| ==>
      var part, item := v[k], items[|v| - 1 - k];
      part.kind == item.kind && part.midpoint == item.midpoint && part.wave == item.wave
  }

  lemma ItemsTurned(s: seq<Part>, t: seq<Part>, items: seq<Item>)
    requires Appended(s, t, items)
    ensures var u := t[..|s|] + Reversed(t[|s|..]);
      |u| == |s| + |items| && forall k :: |s| <= k < |u| ==> Items(u)[k] == items[|u| - 1 - k]
  {
    var u, tail := t[..|s|] + Reversed(t[|s|..]), t[|s|..];
    forall k | |s| <= k < |u|
      ensures Items(u)[k] == items[|u| - 1 - k]
    {
      assert u[k] == tail[|u| - 1 - k];
      assert Items(tail)[|u| - 1 - k] == items[|u| - 1 - k];
    }
  }

  lemma ItemsAre(s: seq<Part>)
    ensures forall k :: 0 <= k < |s| ==> Items(s)[k] == Item(s[k].kind, s[k].midpoint, s[k].wave)
  {
  }

  lemma LinkingKeepsItems(s: seq<Part>, from: nat, limits: Limits)
    requires limits.unit > 0.0 && from <= |s|
    ensures Items(LinkedFrom(s, from, limits)) == Items(s)
    ensures LinkedFrom(s, from, limits)[..from] == s[..from]
  {
    hide Gap, Unkn;
  }

  lemma TurnedAround(s: seq<Part>, t: seq<Part>, items: seq<Item>, limits: Limits)
    requires limits.unit > 0.0 && Appended(s, t, items)
    ensures var v := LinkedFrom(t[..|s|] + Reversed(t[|s|..]), |s|, limits);
      AreTurned(s, v, items) && (Linked(s, limits.size) ==> Linked(v, limits.size))
  {
    var u := t[..|s|] + Reversed(t[|s|..]);
    var v := LinkedFrom(u, |s|, limits);
    assert u[..|s|] == s;
    if Linked(s, limits.size) {
      LinkingLinks(u, |s|, limits);
    }
    LinkingKeepsItems(u, |s|, limits);
    hide Linked, LinkedFrom, Items, Reversed;
    ItemsTurned(s, t, items);
    ItemsAre(v);
    assert v[..|s|] == s;
  }

  lemma AppendOne(s: seq<Part>, t: seq<Part>, items: seq<Item>, item: Item, limits: Limits)
    requires CW_DASH <= item.kind <= CW_WORDSEP && limits.unit > 0.0
    ensures Appended(s, t, items) ==> Appended(s, Inserted(t, |t|, item, limits), items + [item])
  {
    if Appended(s, t, items) {
      var u := Inserted(t, |t|, item, limits);
      assert u[|s|..] == t[|s|..] + [NewPart(t, |t|, item, limits)];
      assert Items(u[|s|..]) == Items(t[|s|..]) + [item];
    }
  }

  lemma StopsWithLast(s: seq<Part>, items: seq<Item>, item: Item, limits: Limits)
    requires limits.Valid()
    ensures forall i :: 0 <= i < |items| ==> Stops(s, items + [item], i, limits) == Stops(s, items, i, limits)
    ensures items != [] && IsStopped(s, items, limits) ==> IsStopped(s, items + [item], limits)
    ensures IsStopped(s, items + [item], limits) ==>
      IsStopped(s, items, limits) || !Checks(s, true, limits.size, limits.neg) || Stops(s, items + [item], |items|, limits)
  {
    hide Checks;
    assert forall i :: 0 <= i < |items| ==> Stops(s, items + [item], i, limits) == Stops(s, items, i, limits);
    assert forall i: nat :: Stops(s, items + [item], i, limits) ==> i <= |items|;
    assert forall i: nat :: Stops(s, items, i, limits) ==> i < |items|;
  }

  lemma LastFollows(s: seq<Part>, t: seq<Part>, items: seq<Item>, item: Item, limits: Limits)
    requires Appended(s, t, items)
    ensures Stops(s, items + [item], |items|, limits) <==>
      |t| >= limits.maxParts || (|t| > 0 && item.midpoint - t[|t| - 1].midpoint > limits.neg)
  {
    if items != [] {
      assert Items(t[|s|..])[|items| - 1] == items[|items| - 1];
    } else {
      assert t == s;
    }
  }

  /** What appending the items leaves, whether it was stopped, and how many are kept. */
  ghost predicate Keeps(s: seq<Part>, items: seq<Item>, t: seq<Part>, stopped: bool, kept: nat, limits: Limits)
    requires limits.Valid()
  {
    && IsKept(s, items, kept, limits) && Appended(s, t, items[..kept])
    && (stopped <==> IsStopped(s, items, limits))
    && (!stopped && items != [] ==> kept == |items| && Checks(t, true, limits.size, limits.neg))
    && (items == [] ==> t == s)
  }

  lemma KeepsWhenStopped(s: seq<Part>, items: seq<Item>, item: Item, t: seq<Part>, stopped: bool, kept: nat, limits: Limits)
    requires limits.Valid() && Keeps(s, items, t, stopped, kept, limits)
    requires stopped || !Checks(t, true, limits.size, limits.neg)
    ensures Keeps(s, items + [item], t, true, kept, limits)
  {
    StopsWithLast(s, items, item, limits);
    hide Checks, Appended;
    assert (items + [item])[..kept] == items[..kept];
  }

  lemma KeepsOneMore(s: seq<Part>, items: seq<Item>, item: Item, t: seq<Part>, kept: nat, limits: Limits)
    requires limits.Valid() && CW_DASH <= item.kind <= CW_WORDSEP
    requires Keeps(s, items, t, false, kept, limits) && Checks(t, true, limits.size, limits.neg)
    ensures var t' := Inserted(t, |t|, item, limits);
      Keeps(s, items + [item], t', |t'| > limits.maxParts || !Checks(t', true, limits.size, limits.neg), |items| + 1, limits)
  {
    StopsWithLast(s, items, item, limits);
    assert items[..|items|] == items && items[..0] == [];
    assert (items + [item])[..|items| + 1] == items + [item];
    assert Appended(s, t, items) by {
      assert items == [] ==> items[..kept] == items;
    }
    LastFollows(s, t, items, item, limits);
    AppendOne(s, t, items, item, limits);
    AppendChecksIff(t, item, limits);
    hide Checks, Appended, Inserted;
  }

  lemma {:induction false} AppendingKeeps(s: seq<Part>, items: seq<Item>, limits: Limits) returns (kept: nat)
    requires limits.Valid() && AreItems(items)
    ensures var (t, stopped) := Appending(s, items, limits);
      Keeps(s, items, t, stopped, kept, limits)
  {
    if items == [] {
      assert Items(s[|s|..]) == items[..0];
      return 0;
    }
    var front, last := items[..|items| - 1], items[|items| - 1];
    kept := AppendingKeeps(s, front, limits);
    var (t, stopped) := Appending(s, front, limits);
    assert front + [last] == items;
    hide Checks, Keeps, Inserted, AreItems;
    if stopped || !Checks(t, true, limits.size, limits.neg) {
      KeepsWhenStopped(s, front, last, t, stopped, kept, limits);
    } else {
      KeepsOneMore(s, front, last, t, kept, limits);
      kept := |items|;
    }
  }

  /** The old parts stay as they were, the new ones follow in time order, and a linked timeline
      stays linked.  The appending is stopped if and only if the timeline does not pass check_cw,
      or a found dash jumps up or is one too many, which is then the last one appended. */
  lemma FoundDashesAreLinked(s: seq<Part>, items: seq<Item>, limits: Limits) returns (kept: nat)
    requires limits.Valid() && AreItems(items)
    ensures FoundDashes(s, items, limits).1 <==> IsStopped(s, items, limits)
    ensures IsKept(s, items, kept, limits)
    ensures var v := FoundDashes(s, items, limits).0;
      && AreTurned(s, v, items[..kept])
      && (Linked(s, limits.size) ==> Linked(v, limits.size))
  {
    AppendingGrows(s, items, limits);
    var t := Appending(s, items, limits).0;
    kept := AppendingKeeps(s, items, limits);
    TurnedAround(s, t, items[..kept], limits);
  }

  class Timeline {
    const limits: Limits
    const cw: array<Part>
    var count: nat            // no_of_cwdat
    var killed: bool          // kill_all_flag, set when check_cw fails or the table is full

    /** There is a place for the one part too many that is stored before the count is tested. */
    ghost predicate Valid()
      reads this
    {
      && limits.Valid() && limits.maxParts < cw.Length
      && count <= limits.maxParts + (if killed then 1 else 0)
    }

    constructor (limits: Limits, cw: array<Part>)
      requires limits.Valid() && limits.maxParts < cw.Length
      ensures Valid() && this.limits == limits && this.cw == cw && count == 0 && !killed
    {
      this.limits := limits;
      this.cw := cw;
      count := 0;
      killed := false;
    }

    ghost function Parts(): (s: seq<Part>)
      requires Valid()
      reads this, cw
      ensures |s| == count
    {
      cw[..count]
    }

    /** check_cw */
    method CheckCw(links: bool)
      requires Valid()
      modifies this`killed
      ensures killed == (old(killed) || !Checks(Parts(), links, limits.size, limits.neg))
    {
      for i := 0 to count
        invariant killed == old(killed)
        invariant forall k :: 0 <= k < i ==> cw[k].len != 0
        invariant links ==> forall k :: 1 <= k < i ==> PairOk(cw[k - 1], cw[k], limits.size, limits.neg)
      {
        if cw[i].len == 0 {
          assert Parts()[i].len == 0;
          killed := true;
          return;
        }
        if links && i > 0 && !PairOk(cw[i - 1], cw[i], limits.size, limits.neg) {
          assert !PairOk(Parts()[i - 1], Parts()[i], limits.size, limits.neg);
          killed := true;
          return;
        }
      }
    }

    /** insert_item at cw_ptr */
    method InsertItem(ptr: nat, item: Item)
      requires Valid() && ptr <= count && CW_DASH <= item.kind <= CW_WORDSEP
      modifies this`count, this`killed, cw
      ensures Valid()
      ensures var ok := !old(killed) && Checks(old(Parts()), true, limits.size, limits.neg);
        && Parts() == (if ok then Inserted(old(Parts()), ptr, item, limits) else old(Parts()))
        && killed == (!ok || |Parts()| > limits.maxParts || !Checks(Parts(), true, limits.size, limits.neg))
    {
      hide Checks, Relinked, NewPart, Gap, Unkn;
      ghost var s := Parts();
      CheckCw(true);
      if killed {
        return;
      }
      var part := MakePart(ptr, item);
      ShiftUp(cw, ptr, count);
      if ptr != count {
        cw[ptr + 1] := Relinked(cw[ptr], item.midpoint, limits);
      }
      cw[ptr] := part;
      count := count + 1;
      killed := count > limits.maxParts;
      assert Parts() == Inserted(s, ptr, item, limits);
      CheckCw(true);
    }

    method MakePart(ptr: nat, item: Item) returns (part: Part)
      requires Valid() && ptr <= count && CW_DASH <= item.kind <= CW_WORDSEP
      ensures part == NewPart(Parts(), ptr, item, limits)
    {
      var from := if ptr == 0 then limits.px else cw[ptr - 1].midpoint;
      var before := if ptr == 0 then 0 else cw[ptr - 1].len;
      var r1 := Gap(from, item.midpoint, limits.size);
      var len := ItemLen(item.kind);
      part := Part(item.kind, Unkn(r1 / limits.unit - ((before + len) / 2) as real), len, item.midpoint, r1, item.wave);
    }

    /** One removal of the elimination pass of detect_cw_speed. */
    method RemovePair(p: nat)
      requires Valid() && 1 <= p < count
      modifies this`count, cw
      ensures Valid() && Parts() == WithoutPair(old(Parts()), p, limits.size)
    {
      hide Gap;
      ghost var s := Parts();
      ShiftDown(cw, p, count);
      ghost var r := cw[..count - 2];
      assert r == s[..p - 1] + s[p + 1..];
      if p >= 2 {
        cw[p - 1] := cw[p - 1].(sep := Gap(cw[p - 2].midpoint, cw[p - 1].midpoint, limits.size));
      }
      cw[p] := cw[p].(sep := Gap(cw[p - 1].midpoint, cw[p].midpoint, limits.size));
      count := count - 2;
      assert Parts() == WithoutPair(s, p, limits.size);
    }

    /** The elimination pass of detect_cw_speed. */
    method Eliminate()
      requires Valid()
      modifies this`count, cw
      ensures Valid() && Parts() == Eliminated(old(Parts()), 1, limits.size, limits.unit)
    {
      hide WithoutPair;
      var ptr := 1;
      while ptr < count
        invariant Valid() && 1 <= ptr
        invariant Eliminated(Parts(), ptr, limits.size, limits.unit) == Eliminated(old(Parts()), 1, limits.size, limits.unit)
        decreases count - ptr
      {
        ghost var s := Parts();
        if cw[ptr].sep / limits.unit < 3.0 {
          assert s[ptr].sep / limits.unit < 3.0;
          RemovePair(ptr);
        } else {
          assert !(s[ptr].sep / limits.unit < 3.0);
          ptr := ptr + 1;
        }
      }
    }

    /** The last loop of find_good_dashes; the source also reads before cw[0] when from is 0. */
    method LinkTail(from: nat)
      requires Valid() && from <= count
      modifies cw
      ensures Parts() == LinkedFrom(old(Parts()), from, limits)
    {
      hide Gap, Unkn, LinkedTo, LinkedFrom, IsLinkedTo;
      ghost var s := Parts();
      var i := if from == 0 then 1 else from;
      LinkEnds(s, s, from, i, limits);
      while i < count
        invariant 1 <= i && from <= i && (i <= count || count == 0)
        invariant if count == 0 then Parts() == s else IsLinkedTo(s, Parts(), from, i, limits)
      {
        ghost var now := Parts();
        LinkStep(s, now, from, i, limits);
        cw[i] := LinkedTo(cw[i - 1], cw[i], limits);
        assert Parts() == now[i := LinkedTo(now[i - 1], now[i], limits)];
        i := i + 1;
      }
      LinkEnds(s, Parts(), from, i, limits);
    }

    /** The appending loop of find_good_dashes over the run ends that the walk visits. */
    method AppendDashes(ramp: array<int>, ends: seq<nat>, dashPts: nat, fit: nat -> DashFit)
      requires Valid() && !killed
      requires forall i :: 0 <= i < |ends| ==> ends[i] < ramp.Length
      modifies this`count, this`killed, cw
      ensures Valid() && old(count) <= count
      ensures (Parts(), killed) == Appending(old(Parts()), GoodDashes(ramp[..], ends, dashPts, fit), limits)
    {
      hide Checks, Inserted, Appending;
      ghost var s, c0 := Parts(), count;
      NothingAppended(s, limits);
      for i := 0 to |ends|
        invariant Valid() && c0 <= count
        invariant (Parts(), killed) == Appending(s, GoodDashes(ramp[..], ends[..i], dashPts, fit), limits)
      {
        assert ends[..i + 1][..i] == ends[..i];
        var e := ends[i];
        if 2 * dashPts / 5 <= ramp[e] <= 3 * dashPts / 2 {
          var f := fit(DashStart(ramp[e], e, dashPts, ramp.Length));
          if f.quality > DASH_DETECT_LIMIT {
            AppendingNext(s, GoodDashes(ramp[..], ends[..i], dashPts, fit), Item(CW_DASH, f.midpoint, f.wave), limits);
            InsertItem(count, Item(CW_DASH, f.midpoint, f.wave));
          }
        }
      }
      assert ends[..|ends|] == ends;
    }

    /** find_good_dashes between ia and ic, by the ramps of the ring.  The dashes found at the
        ends of the key-down runs that the walk visits are appended, newest first, turned
        around and linked; check_cw or a full table may stop it on the way. */
    method FindGoodDashes(ramp: array<int>, pe: nat, neg: nat, ia: nat, ic: nat, ghost lo: nat, ghost d: seq<bool>,
                          dashPts: nat, fit: nat -> DashFit)
      returns (ghost ends: seq<nat>, ghost early: bool)
      requires Valid() && !killed
      requires CanWalk(ramp[..], pe, neg, ia, ic, lo, d)
      modifies this`count, this`killed, cw
      ensures Valid()
      ensures !Checks(old(Parts()), false, limits.size, limits.neg) ==> killed && Parts() == old(Parts())
      ensures forall i :: 0 <= i < |ends| ==> ends[i] < ramp.Length
      ensures Checks(old(Parts()), false, limits.size, limits.neg) ==>
        && IsWalk(ends, early, pe, neg, ia, ic, lo, d, ramp.Length)
        && (Parts(), killed) == FoundDashes(old(Parts()), GoodDashes(ramp[..], ends, dashPts, fit), limits)
    {
      hide Checks, LinkedFrom, GoodDashes, Reversed, Appending, CanWalk, IsWalk;
      ghost var s, wasRamp := Parts(), ramp[..];
      ends, early := [], false;
      CheckCw(false);
      if killed {
        return;
      }
      var c0 := count;
      var visited, left := WalkBack(ramp, pe, neg, ia, ic, lo, d);
      ends, early := visited, left;
      EndsInRing(ends, early, pe, neg, ia, ic, lo, d, ramp.Length);
      AppendDashes(ramp, visited, dashPts, fit);
      ghost var t, items := Parts(), GoodDashes(wasRamp, ends, dashPts, fit);
      AppendingGrows(s, items, limits);
      assert t[..c0] == cw[..c0] && t[c0..] == cw[c0..count];
      ReverseTail(cw, c0, count);
      assert Parts() == t[..c0] + Reversed(t[c0..]);
      LinkTail(c0);
      assert ramp[..] == wasRamp;
    }
  }
}
