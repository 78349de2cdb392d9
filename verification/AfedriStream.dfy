/** The receive loop of netafedri_input (afedri.c:1441-1501): numbered UDP packets are
    rebuilt into a byte ring; lost packets become zeros, resent ones are dropped. */
module AfedriStream {
  import opened CArithmetic
  import opened Rings

  const MAX_RESEND := 25

  /** A packet that passed the header check: its 16-bit number and the bytes after the header. */
  datatype Packet = Packet(num: int, payload: seq<byte>) {
    ghost predicate Valid(size: nat) {
      -0x8000 <= num < 0x8000 && |payload| == size
    }
  }

  // ------------------------------------------------------- what to do with it

  datatype Action = Drop | Store(gap: nat) | Resync

  /** The decision of the receive loop when `pkg` is expected and `num` arrives. */
  function Decide(pkg: int, num: int): Action {
    if 0 < pkg - num < MAX_RESEND then Drop
    else if pkg - num >= MAX_RESEND || num - pkg >= MAX_RESEND then Resync
    else Store(num - pkg)
  }

  /** The decision by the distance around the 16-bit number circle. */
  function DecideCyclic(pkg: int, num: int): Action {
    var ahead := Short(num - pkg);
    if -MAX_RESEND < ahead < 0 then Drop
    else if 0 <= ahead < MAX_RESEND then Store(ahead)
    else Resync
  }

  /** The receive loop follows the number circle except close to both sides of the wrap,
      where it takes a resent or a lost packet for a jump. */
  lemma WrapIsSeenIff(pkg: int, num: int)
    requires -0x8000 <= pkg < 0x8000 && -0x8000 <= num < 0x8000
    ensures Decide(pkg, num) == DecideCyclic(pkg, num) <==> -65511 <= num - pkg <= 65511
  {
  }

  // ------------------------------------------------------------ what is stored

  function Zeros(n: nat): (z: seq<byte>)
    ensures |z| == n
  {
    seq(n, i => 0)
  }

  /** 24-bit samples are stored in 32 bits, low byte zero. */
  function Widened(p: seq<byte>): (w: seq<byte>)
    requires |p| % 3 == 0
    ensures |w| == |p| / 3 * 4
  {
    if p == [] then [] else Widened(p[..|p| - 3]) + [0] + p[|p| - 3..]
  }

  lemma WidenedStep(p: seq<byte>, i: nat)
    requires i % 3 == 0 && i + 3 <= |p|
    ensures Widened(p[..i + 3]) == Widened(p[..i]) + [0, p[i], p[i + 1], p[i + 2]]
  {
    assert p[..i + 3][..i] == p[..i] && p[..i + 3][i..] == [p[i], p[i + 1], p[i + 2]];
  }

  function Slot(p: seq<byte>, wide: bool): (s: seq<byte>)
    requires wide ==> |p| % 3 == 0
    ensures |s| == if wide then |p| / 3 * 4 else |p|
  {
    if wide then Widened(p) else p
  }

  /** A lost packet's slot is all zeros in both formats. */
  lemma {:induction false} ZeroSlot(size: nat, wide: bool)
    requires wide ==> size % 3 == 0
    ensures Slot(Zeros(size), wide) == Zeros(|Slot(Zeros(size), wide)|)
  {
    if wide && size > 0 {
      ZeroSlot(size - 3, true);
      assert Zeros(size)[..size - 3] == Zeros(size - 3);
    }
  }

  function ZeroSlots(count: nat, size: nat, wide: bool): (z: seq<byte>)
    requires wide ==> size % 3 == 0
  {
    if count == 0 then [] else ZeroSlots(count - 1, size, wide) + Slot(Zeros(size), wide)
  }

  /** The bytes that a packet adds to the stream. */
  function Added(pkg: int, p: Packet, wide: bool): seq<byte>
    requires wide ==> |p.payload| % 3 == 0
  {
    match Decide(pkg, p.num)
    case Drop => []
    case Store(gap) => ZeroSlots(gap, |p.payload|, wide) + Slot(p.payload, wide)
    case Resync => Slot(p.payload, wide)
  }

  /** Byte by byte: each group of three is kept, behind a zero. */
  lemma {:induction false} WidenedAt(p: seq<byte>, k: nat)
    requires |p| % 3 == 0 && 3 * k + 3 <= |p|
    ensures |Widened(p)| == |p| / 3 * 4
    ensures var w := Widened(p);
      w[4 * k] == 0 && w[4 * k + 1] == p[3 * k] && w[4 * k + 2] == p[3 * k + 1] && w[4 * k + 3] == p[3 * k + 2]
  {
    var front := p[..|p| - 3];
    if 3 * k + 3 < |p| {
      WidenedAt(front, k);
      assert Widened(front) == Widened(p)[..4 * (|p| / 3) - 4];
    }
  }

  function NextNumber(pkg: int, num: int): int {
    if Decide(pkg, num) == Drop then pkg else Short(num + 1)
  }

  lemma ShortIsCongruent(x: int)
    ensures (Short(x) - x) % 0x1_0000 == 0
  {
  }

  lemma SameSize(p: seq<byte>, q: seq<byte>, wide: bool)
    requires |p| == |q| && (wide ==> |p| % 3 == 0)
    ensures |Slot(p, wide)| == |Slot(q, wide)|
  {
  }

  lemma {:induction false} ZerosOfSlots(count: nat, size: nat, wide: bool)
    requires wide ==> size % 3 == 0
    ensures ZeroSlots(count, size, wide) == Zeros(count * |Slot(Zeros(size), wide)|)
  {
    hide Slot;
    if count > 0 {
      ZerosOfSlots(count - 1, size, wide);
      ZeroSlot(size, wide);
      var w := |Slot(Zeros(size), wide)|;
      assert count * w == (count - 1) * w + w;
    }
  }

  /** A packet that comes up to 24 numbers late adds nothing.  Any other adds its payload, behind
      zeros for the numbers it has skipped; but one that is 25 numbers or more away skips none:
      the stream starts anew with it. */
  lemma AddedIs(pkg: int, p: Packet, wide: bool)
    requires wide ==> |p.payload| % 3 == 0
    ensures var ahead, slot := p.num - pkg, Slot(p.payload, wide);
      if -25 < ahead < 0 then Added(pkg, p, wide) == [] && NextNumber(pkg, p.num) == pkg
      else
        && Added(pkg, p, wide) == Zeros((if 0 <= ahead < 25 then ahead else 0) * |slot|) + slot
        && (NextNumber(pkg, p.num) - p.num - 1) % 0x10000 == 0
  {
    hide Slot;
    var ahead := p.num - pkg;
    if 0 <= ahead < 25 {
      ZerosOfSlots(ahead, |p.payload|, wide);
      SameSize(p.payload, Zeros(|p.payload|), wide);
    } else {
      assert Zeros(0) + Slot(p.payload, wide) == Slot(p.payload, wide);
    }
    ShortIsCongruent(p.num + 1);
  }

  // ------------------------------------------------------------------ the ring

  /** The ring after writing `out` from `ptr` on, one byte after the other. */
  ghost function RingWith(ring: seq<byte>, ptr: nat, out: seq<byte>): (r: seq<byte>)
    requires ptr < |ring|
    ensures |r| == |ring|
    decreases |out|
  {
    if out == [] then ring else RingWith(ring[ptr := out[0]], Next(ptr, |ring|), out[1..])
  }

  ghost function PtrAfter(ptr: nat, count: nat, n: nat): (p: nat)
    requires ptr < n
    ensures p < n
    decreases count
  {
    if count == 0 then ptr else PtrAfter(Next(ptr, n), count - 1, n)
  }

  lemma NextIsModulo(ptr: nat, k: nat, n: nat)
    requires ptr < n
    ensures (Next(ptr, n) + k) % n == (ptr + 1 + k) % n
  {
    if ptr + 1 == n {
      var q := k / n;
      assert k == q * n + k % n;
      Remainder(n + k, q + 1, n, k % n);
    }
  }

  lemma {:induction false} PtrIsModulo(ptr: nat, count: nat, n: nat)
    requires ptr < n
    ensures PtrAfter(ptr, count, n) == (ptr + count) % n
    decreases count
  {
    if count == 0 {
      Remainder(ptr, 0, n, ptr);
    } else {
      PtrIsModulo(Next(ptr, n), count - 1, n);
      NextIsModulo(ptr, count - 1, n);
    }
  }

  /** The cells that the bytes do not reach stay as they were... */
  lemma {:induction false} RingKeeps(ring: seq<byte>, ptr: nat, out: seq<byte>, q: nat)
    requires ptr < |ring| && q < |ring| && |out| <= Off(ptr, q, |ring|)
    ensures RingWith(ring, ptr, out)[q] == ring[q]
    decreases |out|
  {
    if out != [] {
      RingKeeps(ring[ptr := out[0]], Next(ptr, |ring|), out[1..], q);
    }
  }

  /** ...and each byte of the last time around is in its cell. */
  lemma {:induction false} RingHolds(ring: seq<byte>, ptr: nat, out: seq<byte>, i: nat)
    requires ptr < |ring| && i < |out| <= i + |ring|
    ensures RingWith(ring, ptr, out)[(ptr + i) % |ring|] == out[i]
    decreases |out|
  {
    var n := |ring|;
    if i == 0 {
      Remainder(ptr, 0, n, ptr);
      RingKeeps(ring[ptr := out[0]], Next(ptr, n), out[1..], ptr);
    } else {
      RingHolds(ring[ptr := out[0]], Next(ptr, n), out[1..], i - 1);
      NextIsModulo(ptr, i - 1, n);
    }
  }

  lemma {:induction false} RingThen(ring: seq<byte>, ptr: nat, a: seq<byte>, b: seq<byte>)
    requires ptr < |ring|
    ensures PtrAfter(PtrAfter(ptr, |a|, |ring|), |b|, |ring|) == PtrAfter(ptr, |a + b|, |ring|)
    ensures RingWith(RingWith(ring, ptr, a), PtrAfter(ptr, |a|, |ring|), b) == RingWith(ring, ptr, a + b)
    decreases |a|
  {
    if a == [] {
      assert a + b == b;
    } else {
      RingThen(ring[ptr := a[0]], Next(ptr, |ring|), a[1..], b);
      assert (a + b)[1..] == a[1..] + b;
    }
  }

  function FourWritten(ring: seq<byte>, ptr: nat, b0: byte, b1: byte, b2: byte, b3: byte): (r: seq<byte>)
    requires ptr + 4 <= |ring|
    ensures |r| == |ring|
  {
    ring[ptr := b0][ptr + 1 := b1][ptr + 2 := b2][ptr + 3 := b3]
  }

  /** One byte after the other. */
  lemma RingFirst(ring: seq<byte>, ptr: nat, b: byte, rest: seq<byte>)
    requires ptr < |ring|
    ensures RingWith(ring, ptr, [b] + rest) == RingWith(ring[ptr := b], Next(ptr, |ring|), rest)
    ensures PtrAfter(ptr, 1 + |rest|, |ring|) == PtrAfter(Next(ptr, |ring|), |rest|, |ring|)
  {
    assert ([b] + rest)[1..] == rest;
  }

  lemma RingOne(ring: seq<byte>, ptr: nat, b: byte)
    requires ptr < |ring|
    ensures RingWith(ring, ptr, [b]) == ring[ptr := b] && PtrAfter(ptr, 1, |ring|) == Next(ptr, |ring|)
  {
    assert [b][1..] == [];
  }

  lemma RingTwo(ring: seq<byte>, ptr: nat, b0: byte, b1: byte)
    requires ptr + 1 < |ring|
    ensures RingWith(ring, ptr, [b0, b1]) == ring[ptr := b0][ptr + 1 := b1]
    ensures PtrAfter(ptr, 2, |ring|) == Next(ptr + 1, |ring|)
  {
    hide RingWith, PtrAfter;
    assert [b0, b1] == [b0] + [b1];
    RingFirst(ring, ptr, b0, [b1]);
    RingOne(ring[ptr := b0], ptr + 1, b1);
  }

  /** A group of four bytes from an aligned pointer is stored without wrapping in between. */
  lemma RingFour(ring: seq<byte>, ptr: nat, b0: byte, b1: byte, b2: byte, b3: byte)
    requires ptr < |ring| && ptr % 4 == 0 && |ring| % 4 == 0
    ensures RingWith(ring, ptr, [b0, b1, b2, b3]) == FourWritten(ring, ptr, b0, b1, b2, b3)
    ensures PtrAfter(ptr, 4, |ring|) == (if ptr + 4 == |ring| then 0 else ptr + 4)
    ensures PtrAfter(ptr, 4, |ring|) % 4 == 0
  {
    hide RingWith, PtrAfter;
    assert ptr + 4 <= |ring|;
    assert [b0, b1, b2, b3] == [b0, b1] + [b2, b3];
    RingThen(ring, ptr, [b0, b1], [b2, b3]);
    RingTwo(ring, ptr, b0, b1);
    RingTwo(ring[ptr := b0][ptr + 1 := b1], ptr + 2, b2, b3);
  }

  class Stream {
    const wide: bool                 // 24-bit format
    const size: nat                  // pkg_size-4
    const ring: array<byte>          // timf1_char
    var ptr: nat                     // timf1_netptr
    var pkg: int                     // pkg_number

    ghost predicate Valid()
      reads this
    {
      && ptr < ring.Length && -0x8000 <= pkg < 0x8000
      && (wide ==> size % 3 == 0 && ptr % 4 == 0 && ring.Length % 4 == 0)
    }

    constructor (wide: bool, size: nat, ring: array<byte>, ptr: nat)
      requires ptr < ring.Length && (wide ==> size % 3 == 0 && ptr % 4 == 0 && ring.Length % 4 == 0)
      ensures Valid() && this.wide == wide && this.size == size && this.ring == ring && this.ptr == ptr && pkg == 0
    {
      this.wide, this.size, this.ring, this.ptr, pkg := wide, size, ring, ptr, 0;
    }

    /** Store the bytes of one slot. */
    method WriteSlot(payload: seq<byte>)
      requires Valid() && |payload| == size
      modifies this`ptr, ring
      ensures Valid()
      ensures ring[..] == RingWith(old(ring[..]), old(ptr), Slot(payload, wide))
      ensures ptr == PtrAfter(old(ptr), |Slot(payload, wide)|, ring.Length)
    {
      if wide {
        WriteWide(payload);
      } else {
        WriteNarrow(payload);
      }
    }

    method WriteNarrow(payload: seq<byte>)
      requires Valid() && !wide
      modifies this`ptr, ring
      ensures Valid()
      ensures ring[..] == RingWith(old(ring[..]), old(ptr), payload)
      ensures ptr == PtrAfter(old(ptr), |payload|, ring.Length)
    {
      ghost var r0, p0 := ring[..], ptr;
      for i := 0 to |payload|
        invariant Valid()
        invariant ring[..] == RingWith(r0, p0, payload[..i])
        invariant ptr == PtrAfter(p0, i, ring.Length)
      {
        ghost var r, p := ring[..], ptr;
        ring[ptr] := payload[i];
        ptr := Next(ptr, ring.Length);
        RingOne(r, p, payload[i]);
        RingThen(r0, p0, payload[..i], [payload[i]]);
        assert payload[..i] + [payload[i]] == payload[..i + 1];
        assert ring[..] == r[p := payload[i]];
      }
      assert payload[..|payload|] == payload;
    }

    method WriteWide(payload: seq<byte>)
      requires Valid() && wide && |payload| % 3 == 0
      modifies this`ptr, ring
      ensures Valid()
      ensures ring[..] == RingWith(old(ring[..]), old(ptr), Widened(payload))
      ensures ptr == PtrAfter(old(ptr), |Widened(payload)|, ring.Length)
    {
      ghost var r0, p0 := ring[..], ptr;
      var i := 0;
      while i < |payload|
        invariant 0 <= i <= |payload| && i % 3 == 0 && Valid()
        invariant ring[..] == RingWith(r0, p0, Widened(payload[..i]))
        invariant ptr == PtrAfter(p0, |Widened(payload[..i])|, ring.Length)
      {
        hide RingWith, PtrAfter, Widened;
        WriteGroup(payload[i], payload[i + 1], payload[i + 2]);
        RingThen(r0, p0, Widened(payload[..i]), [0, payload[i], payload[i + 1], payload[i + 2]]);
        WidenedStep(payload, i);
        i := i + 3;
      }
      assert payload[..|payload|] == payload;
    }

    method WriteGroup(b1: byte, b2: byte, b3: byte)
      requires Valid() && wide
      modifies this`ptr, ring
      ensures Valid()
      ensures ring[..] == RingWith(old(ring[..]), old(ptr), [0, b1, b2, b3])
      ensures ptr == PtrAfter(old(ptr), 4, ring.Length)
    {
      hide RingWith, PtrAfter;
      ghost var r, p := ring[..], ptr;
      ring[ptr] := 0;
      ring[ptr + 1] := b1;
      ring[ptr + 2] := b2;
      ring[ptr + 3] := b3;
      ptr := if ptr + 4 == ring.Length then 0 else ptr + 4;
      assert ring[..] == FourWritten(r, p, 0, b1, b2, b3);
      RingFour(r, p, 0, b1, b2, b3);
    }

    /** One packet: drop it, or fill the gap before it with zeros and store it. */
    method Receive(packet: Packet)
      requires Valid() && packet.Valid(size)
      modifies this`ptr, this`pkg, ring
      ensures Valid()
      ensures pkg == NextNumber(old(pkg), packet.num)
      ensures ring[..] == RingWith(old(ring[..]), old(ptr), Added(old(pkg), packet, wide))
      ensures ptr == PtrAfter(old(ptr), |Added(old(pkg), packet, wide)|, ring.Length)
    {
      hide RingWith, PtrAfter, Slot, Short;
      var num := packet.num;
      if pkg - num > 0 && pkg - num < MAX_RESEND {
        NothingWritten(ring[..], ptr);
        return;
      }
      if pkg - num >= MAX_RESEND || num - pkg >= MAX_RESEND {
        pkg := num;
      }
      ghost var r0, p0, gap, k := ring[..], ptr, num - pkg, 0;
      NothingWritten(r0, p0);
      while pkg != num
        invariant Valid() && 0 <= k <= gap && pkg == num - gap + k
        invariant ring[..] == RingWith(r0, p0, ZeroSlots(k, size, wide))
        invariant ptr == PtrAfter(p0, |ZeroSlots(k, size, wide)|, ring.Length)
        decreases num - pkg
      {
        WriteSlot(Zeros(size));
        RingThen(r0, p0, ZeroSlots(k, size, wide), Slot(Zeros(size), wide));
        pkg := Short(pkg + 1);
        k := k + 1;
      }
      WriteSlot(packet.payload);
      RingThen(r0, p0, ZeroSlots(gap, size, wide), Slot(packet.payload, wide));
      assert gap == 0 ==> ZeroSlots(gap, size, wide) + Slot(packet.payload, wide) == Slot(packet.payload, wide);
      pkg := Short(pkg + 1);
    }

    /** The loop over packets. */
    method ReceiveAll(ps: seq<Packet>)
      requires Valid() && AllValid(ps, size)
      modifies this`ptr, this`pkg, ring
      ensures Valid() && pkg == Expected(old(pkg), ps)
      ensures ring[..] == RingWith(old(ring[..]), old(ptr), Output(old(pkg), ps, size, wide))
      ensures ptr == PtrAfter(old(ptr), |Output(old(pkg), ps, size, wide)|, ring.Length)
    {
      hide RingWith, PtrAfter, Added, NextNumber;
      ghost var r0, p0, k0 := ring[..], ptr, pkg;
      NothingWritten(r0, p0);
      for i := 0 to |ps|
        invariant Valid() && pkg == Expected(k0, ps[..i])
        invariant ring[..] == RingWith(r0, p0, Output(k0, ps[..i], size, wide))
        invariant ptr == PtrAfter(p0, |Output(k0, ps[..i], size, wide)|, ring.Length)
      {
        assert ps[..i + 1][..i] == ps[..i];
        RingThen(r0, p0, Output(k0, ps[..i], size, wide), Added(pkg, ps[i], wide));
        Receive(ps[i]);
      }
      assert ps[..|ps|] == ps;
    }
  }

  lemma NothingWritten(ring: seq<byte>, ptr: nat)
    requires ptr < |ring|
    ensures RingWith(ring, ptr, []) == ring && PtrAfter(ptr, 0, |ring|) == ptr
  {
  }

  // ------------------------------------------------------------ whole runs

  /** The number expected after a run of packets. */
  function Expected(pkg: int, ps: seq<Packet>): int {
    if ps == [] then pkg else NextNumber(Expected(pkg, ps[..|ps| - 1]), ps[|ps| - 1].num)
  }

  ghost predicate AllValid(ps: seq<Packet>, size: nat) {
    forall i :: 0 <= i < |ps| ==> ps[i].Valid(size)
  }

  /** All bytes that a run adds to the stream. */
  function Output(pkg: int, ps: seq<Packet>, size: nat, wide: bool): seq<byte>
    requires AllValid(ps, size) && (wide ==> size % 3 == 0)
  {
    if ps == [] then []
    else Output(pkg, ps[..|ps| - 1], size, wide) + Added(Expected(pkg, ps[..|ps| - 1]), ps[|ps| - 1], wide)
  }

  /** Every number is less than MAX_RESEND away from the expected one, and the 16-bit
      wrap is not reached. */
  ghost predicate IsCalm(pkg: int, ps: seq<Packet>, size: nat)
    decreases |ps|
  {
    ps == []
    || (var e := Expected(pkg, ps[..|ps| - 1]);
        var p := ps[|ps| - 1];
        && IsCalm(pkg, ps[..|ps| - 1], size)
        && p.Valid(size) && p.num < 0x7fff && -MAX_RESEND < p.num - e < MAX_RESEND)
  }

  /** Packet i is ahead of all packets before it. */
  ghost predicate InTime(ps: seq<Packet>, i: nat)
    requires i < |ps|
  {
    forall j :: 0 <= j < i ==> ps[j].num < ps[i].num
  }

  /** What was sent in time as number k; a lost packet counts as zeros. */
  ghost function SentAs(ps: seq<Packet>, k: int, size: nat): (p: seq<byte>)
    ensures |p| == size
  {
    if exists i: nat :: IsSender(ps, k, size, i) then
      var i: nat :| IsSender(ps, k, size, i);
      ps[i].payload
    else Zeros(size)
  }

  ghost predicate IsSender(ps: seq<Packet>, k: int, size: nat, i: nat) {
    i < |ps| && ps[i].num == k && InTime(ps, i) && |ps[i].payload| == size
  }

  /** One slot for each of the numbers first..next-1, in order. */
  ghost function SlotPerNumber(ps: seq<Packet>, first: int, next: int, size: nat, wide: bool): (slots: seq<seq<byte>>)
    requires first <= next && (wide ==> size % 3 == 0)
    ensures |slots| == next - first
  {
    seq(next - first, i requires 0 <= i < next - first => Slot(SentAs(ps, first + i, size), wide))
  }

  function Flat(slots: seq<seq<byte>>): seq<byte> {
    if slots == [] then [] else Flat(slots[..|slots| - 1]) + slots[|slots| - 1]
  }

  /** Expected is one above the highest number so far. */
  lemma {:induction false} ExpectedIsNext(pkg: int, ps: seq<Packet>, size: nat)
    requires IsCalm(pkg, ps, size)
    ensures pkg <= Expected(pkg, ps)
    ensures forall i :: 0 <= i < |ps| ==> ps[i].num < Expected(pkg, ps)
    ensures Expected(pkg, ps) > pkg ==> exists i :: 0 <= i < |ps| && ps[i].num == Expected(pkg, ps) - 1
    decreases |ps|
  {
    if ps != [] {
      var front, p := ps[..|ps| - 1], ps[|ps| - 1];
      ExpectedIsNext(pkg, front, size);
      var e := Expected(pkg, front);
      forall i | 0 <= i < |ps|
        ensures ps[i].num < Expected(pkg, ps)
      {
        assert i < |front| ==> front[i] == ps[i];
      }
      if Expected(pkg, ps) > pkg {
        if p.num >= e {
          assert ps[|ps| - 1].num == Expected(pkg, ps) - 1;
        } else {
          var i :| 0 <= i < |front| && front[i].num == e - 1;
          assert ps[i].num == Expected(pkg, ps) - 1;
        }
      }
    }
  }

  /** Packets that come later do not change what was sent as number k, unless they are first with k. */
  lemma SentAsBefore(ps: seq<Packet>, p: Packet, k: int, size: nat)
    requires p.num != k || !InTime(ps + [p], |ps|)
    ensures SentAs(ps + [p], k, size) == SentAs(ps, k, size)
  {
    forall i: nat
      ensures IsSender(ps + [p], k, size, i) <==> IsSender(ps, k, size, i)
    {
      if i < |ps| {
        assert forall j :: 0 <= j <= i ==> (ps + [p])[j] == ps[j];
      }
    }
    SenderIsUnique(ps, k, size);
    SenderIsUnique(ps + [p], k, size);
  }

  lemma SenderIsUnique(ps: seq<Packet>, k: int, size: nat)
    ensures forall i: nat, j: nat :: IsSender(ps, k, size, i) && IsSender(ps, k, size, j) ==> i == j
  {
    forall i: nat, j: nat | IsSender(ps, k, size, i) && IsSender(ps, k, size, j)
      ensures i == j
    {
      assert !(ps[i].num < ps[j].num) && !(ps[j].num < ps[i].num);
    }
  }

  function Repeated(slot: seq<byte>, count: nat): (r: seq<seq<byte>>)
    ensures |r| == count
  {
    seq(count, i => slot)
  }

  lemma {:induction false} FlatZeros(slots: seq<seq<byte>>, count: nat, size: nat, wide: bool)
    requires wide ==> size % 3 == 0
    ensures Flat(slots + Repeated(Slot(Zeros(size), wide), count)) == Flat(slots) + ZeroSlots(count, size, wide)
  {
    hide Slot, Zeros;
    var zero := Slot(Zeros(size), wide);
    var all := slots + Repeated(zero, count);
    if count == 0 {
      assert all == slots;
    } else {
      FlatZeros(slots, count - 1, size, wide);
      assert all[..|all| - 1] == slots + Repeated(zero, count - 1);
    }
  }

  lemma FlatOneMore(slots: seq<seq<byte>>, slot: seq<byte>)
    ensures Flat(slots + [slot]) == Flat(slots) + slot
  {
    assert (slots + [slot])[..|slots|] == slots;
  }

  /** In a calm run the stream holds exactly one slot per packet number, in order: the
      payload that came in time with that number, or zeros. */
  lemma {:induction false} OneSlotPerNumber(pkg: int, ps: seq<Packet>, size: nat, wide: bool)
    requires IsCalm(pkg, ps, size) && (wide ==> size % 3 == 0)
    requires AllValid(ps, size)
    ensures pkg <= Expected(pkg, ps)
    ensures Output(pkg, ps, size, wide) == Flat(SlotPerNumber(ps, pkg, Expected(pkg, ps), size, wide))
    decreases |ps|
  {
    hide Slot, SlotPerNumber, Flat, ZeroSlots;
    ExpectedIsNext(pkg, ps, size);
    if ps == [] {
      NoSlots(pkg, size, wide);
    } else {
      var front, p := ps[..|ps| - 1], ps[|ps| - 1];
      assert ps == front + [p];
      ExpectedIsNext(pkg, front, size);
      OneSlotPerNumber(pkg, front, size, wide);
      if p.num < Expected(pkg, front) {
        ResentChangesNothing(pkg, front, p, size, wide);
      } else {
        NewSlots(pkg, front, p, Expected(pkg, front), size, wide);
      }
    }
  }

  lemma NoSlots(pkg: int, size: nat, wide: bool)
    requires wide ==> size % 3 == 0
    ensures Flat(SlotPerNumber([], pkg, pkg, size, wide)) == []
  {
  }

  lemma ResentChangesNothing(pkg: int, front: seq<Packet>, p: Packet, size: nat, wide: bool)
    requires wide ==> size % 3 == 0
    requires IsCalm(pkg, front, size) && p.num < Expected(pkg, front)
    ensures pkg <= Expected(pkg, front)
    ensures SlotPerNumber(front + [p], pkg, Expected(pkg, front), size, wide)
         == SlotPerNumber(front, pkg, Expected(pkg, front), size, wide)
  {
    ExpectedIsNext(pkg, front, size);
    hide SentAs;
    var e := Expected(pkg, front);
    forall k | pkg <= k < e
      ensures SentAs(front + [p], k, size) == SentAs(front, k, size)
    {
      if p.num == k {
        var i :| 0 <= i < |front| && front[i].num == e - 1;
        assert (front + [p])[i].num >= (front + [p])[|front|].num;
      }
      SentAsBefore(front, p, k, size);
    }
  }

  lemma NewSlots(pkg: int, front: seq<Packet>, p: Packet, e: int, size: nat, wide: bool)
    requires wide ==> size % 3 == 0
    requires |p.payload| == size && pkg <= e <= p.num && forall i :: 0 <= i < |front| ==> front[i].num < e
    ensures Flat(SlotPerNumber(front + [p], pkg, p.num + 1, size, wide))
         == Flat(SlotPerNumber(front, pkg, e, size, wide)) + (ZeroSlots(p.num - e, size, wide) + Slot(p.payload, wide))
  {
    hide Slot, Zeros, SlotPerNumber, Flat, ZeroSlots, Repeated;
    var slots, zeros := SlotPerNumber(front, pkg, e, size, wide), Repeated(Slot(Zeros(size), wide), p.num - e);
    SlotsSplit(pkg, front, p, e, size, wide);
    FlatOneMore(slots + zeros, Slot(p.payload, wide));
    FlatZeros(slots, p.num - e, size, wide);
    Associate(Flat(slots), ZeroSlots(p.num - e, size, wide), Slot(p.payload, wide));
  }

  lemma SlotsSplit(pkg: int, front: seq<Packet>, p: Packet, e: int, size: nat, wide: bool)
    requires wide ==> size % 3 == 0
    requires |p.payload| == size && pkg <= e <= p.num && forall i :: 0 <= i < |front| ==> front[i].num < e
    ensures SlotPerNumber(front + [p], pkg, p.num + 1, size, wide)
         == SlotPerNumber(front, pkg, e, size, wide) + Repeated(Slot(Zeros(size), wide), p.num - e) + [Slot(p.payload, wide)]
  {
    NewSenders(front, p, e, size);
    hide SentAs, Slot, Zeros;
  }

  lemma Associate(a: seq<byte>, b: seq<byte>, c: seq<byte>)
    ensures a + b + c == a + (b + c)
  {
  }

  /** After all earlier numbers were below e, packet p is the one sent as its number, and
      the numbers from e up to it are lost. */
  lemma NewSenders(front: seq<Packet>, p: Packet, e: int, size: nat)
    requires |p.payload| == size && e <= p.num && forall i :: 0 <= i < |front| ==> front[i].num < e
    ensures SentAs(front + [p], p.num, size) == p.payload
    ensures forall k :: k < p.num ==> SentAs(front + [p], k, size) == if k < e then SentAs(front, k, size) else Zeros(size)
  {
    var ps := front + [p];
    forall k | k < p.num
      ensures SentAs(ps, k, size) == if k < e then SentAs(front, k, size) else Zeros(size)
    {
      SentAsBefore(front, p, k, size);
      if k >= e {
        assert forall i: nat :: !IsSender(front, k, size, i);
      }
    }
    assert IsSender(ps, p.num, size, |front|);
    SenderIsUnique(ps, p.num, size);
  }
}
