/** The two lines of an I2C bus as sampled after every port write, and a receiver that
    follows NXP UM10204: sections 3.1.3 (data valid while SCL is high), 3.1.4 (START and
    STOP), 3.1.5 (eight bits, most significant first) and 3.1.6 (acknowledge clock). */
module I2cBus {
  import opened CArithmetic

  datatype Level = Level(sda: bool, scl: bool)

  datatype Event = Started | Received(b: byte) | Stopped

  /** active: between START and STOP; bits: of the byte under way.  SDA that moves while SCL
      stays high is always a START or a STOP. */
  datatype Receiver = Receiver(level: Level, active: bool, bits: seq<bool>, events: seq<Event>) {

    function See(l: Level): Receiver {
      var now := this.(level := l);
      if level.scl && l.scl && level.sda && !l.sda then
        now.(active := true, bits := [], events := events + [Started])
      else if level.scl && l.scl && !level.sda && l.sda then
        now.(active := false, bits := [], events := events + [Stopped])
      else if !level.scl && l.scl && active then
        if |bits| == 8 then now.(bits := [], events := events + [Received(FromBits(bits))])
        else now.(bits := bits + [l.sda])
      else now
    }

    function SeeAll(ls: seq<Level>): Receiver
      decreases |ls|
    {
      if ls == [] then this else See(ls[0]).SeeAll(ls[1..])
    }
  }

  function Bit(b: bool): (r: int)
    ensures 0 <= r <= 1
  {
    if b then 1 else 0
  }

  function FromBits(bits: seq<bool>): byte
    requires |bits| == 8
  {
    128 * Bit(bits[0]) + 64 * Bit(bits[1]) + 32 * Bit(bits[2]) + 16 * Bit(bits[3])
    + 8 * Bit(bits[4]) + 4 * Bit(bits[5]) + 2 * Bit(bits[6]) + Bit(bits[7])
  }

  /** Value & mask, for a mask with one bit. */
  predicate HasBit(v: byte, mask: int)
    requires mask > 0
  {
    (v / mask) % 2 == 1
  }

  function BitsOf(v: byte): (bits: seq<bool>)
    ensures |bits| == 8
  {
    [HasBit(v, 128), HasBit(v, 64), HasBit(v, 32), HasBit(v, 16),
     HasBit(v, 8), HasBit(v, 4), HasBit(v, 2), HasBit(v, 1)]
  }

  lemma BitsRoundTrip(v: byte)
    ensures FromBits(BitsOf(v)) == v
  {
    var q1, q2, q3, q4 := LowBits(v);
    var q5, q6, q7 := HighBits(v, q4);
    hide HasBit, Bit;
  }

  lemma LowBits(v: byte) returns (q1: int, q2: int, q3: int, q4: int)
    ensures v == 2 * q1 + Bit(HasBit(v, 1)) && q1 == 2 * q2 + Bit(HasBit(v, 2))
    ensures q2 == 2 * q3 + Bit(HasBit(v, 4)) && q3 == 2 * q4 + Bit(HasBit(v, 8))
    ensures q4 == v / 16
  {
    q1, q2, q3, q4 := v / 2, v / 4, v / 8, v / 16;
  }

  lemma HighBits(v: byte, q4: int) returns (q5: int, q6: int, q7: int)
    requires q4 == v / 16
    ensures q4 == 2 * q5 + Bit(HasBit(v, 16)) && q5 == 2 * q6 + Bit(HasBit(v, 32))
    ensures q6 == 2 * q7 + Bit(HasBit(v, 64)) && q7 == Bit(HasBit(v, 128))
  {
    q5, q6, q7 := v / 32, v / 64, v / 128;
  }

  // -------------------------------------------------- what the master writes

  /** START: SDA falls, then SCL. */
  function StartLevels(l: Level): seq<Level> {
    [Level(false, l.scl), Level(false, false)]
  }

  /** STOP: both low, then SCL rises, then SDA. */
  function StopLevels(l: Level): seq<Level> {
    [Level(l.sda, false), Level(false, false), Level(false, true), Level(true, true)]
  }

  /** Idle bus: both lines high. */
  function InitLevels(l: Level): seq<Level> {
    [Level(l.sda, true), Level(true, true)]
  }

  /** A bit: SDA is set while SCL is low, SCL pulses. */
  function BitLevels(l: Level, bit: bool): seq<Level> {
    [Level(bit, l.scl), Level(bit, true), Level(bit, false)]
  }

  function BitsLevels(bits: seq<bool>): seq<Level> {
    if bits == [] then [] else BitsLevels(bits[..|bits| - 1]) + BitLevels(Level(false, false), bits[|bits| - 1])
  }

  /** A byte: its bits and a released SDA for the acknowledge clock. */
  function ByteLevels(v: byte): seq<Level> {
    BitsLevels(BitsOf(v)) + BitLevels(Level(false, false), true)
  }

  function BytesLevels(bytes: seq<byte>): seq<Level> {
    if bytes == [] then [] else BytesLevels(bytes[..|bytes| - 1]) + ByteLevels(bytes[|bytes| - 1])
  }

  /** One transaction on an idle bus. */
  function TransactionLevels(bytes: seq<byte>): seq<Level> {
    StartLevels(Level(true, true)) + BytesLevels(bytes)
    + StopLevels(if bytes == [] then Level(false, false) else Level(true, false))
  }

  function AllLevels(transactions: seq<seq<byte>>): seq<Level> {
    if transactions == [] then []
    else AllLevels(transactions[..|transactions| - 1]) + TransactionLevels(transactions[|transactions| - 1])
  }

  // ----------------------------------------------------- what is received

  function Events(transactions: seq<seq<byte>>): seq<Event> {
    if transactions == [] then []
    else Events(transactions[..|transactions| - 1]) + TransactionEvents(transactions[|transactions| - 1])
  }

  function TransactionEvents(bytes: seq<byte>): seq<Event> {
    [Started] + ByteEvents(bytes) + [Stopped]
  }

  function ByteEvents(bytes: seq<byte>): seq<Event> {
    seq(|bytes|, i requires 0 <= i < |bytes| => Received(bytes[i]))
  }

  lemma {:induction false} SeeSplit(rx: Receiver, a: seq<Level>, b: seq<Level>)
    ensures rx.SeeAll(a + b) == rx.SeeAll(a).SeeAll(b)
    decreases |a|
  {
    if a == [] {
      assert a + b == b;
    } else {
      assert (a + b)[1..] == a[1..] + b && (a + b)[0] == a[0];
      SeeSplit(rx.See(a[0]), a[1..], b);
    }
  }

  lemma SeeThree(rx: Receiver, a: Level, b: Level, c: Level)
    ensures rx.SeeAll([a, b, c]) == rx.See(a).See(b).See(c)
  {
    assert [a, b, c][1..] == [b, c];
    SeeTwo(rx.See(a), b, c);
  }

  lemma SeeTwo(rx: Receiver, a: Level, b: Level)
    ensures rx.SeeAll([a, b]) == rx.See(a).See(b)
  {
    assert [a, b][1..] == [b] && [b][1..] == [];
    assert rx.See(a).SeeAll([b]) == rx.See(a).See(b).SeeAll([]);
  }

  /** One clocked bit is one bit received; the level before it does not matter while SCL is low. */
  lemma SeeBit(rx: Receiver, bit: bool)
    requires rx.active && !rx.level.scl && |rx.bits| < 8
    ensures rx.SeeAll(BitLevels(Level(false, false), bit)) == rx.(level := Level(bit, false), bits := rx.bits + [bit])
  {
    SeeThree(rx, Level(bit, false), Level(bit, true), Level(bit, false));
  }

  lemma SeeAcknowledge(rx: Receiver)
    requires rx.active && !rx.level.scl && |rx.bits| == 8
    ensures rx.SeeAll(BitLevels(Level(false, false), true))
         == rx.(level := Level(true, false), bits := [], events := rx.events + [Received(FromBits(rx.bits))])
  {
    hide FromBits;
    SeeThree(rx, Level(true, false), Level(true, true), Level(true, false));
  }

  lemma {:induction false} SeeBits(rx: Receiver, bits: seq<bool>)
    requires rx.active && !rx.level.scl && |rx.bits| + |bits| <= 8
    ensures var r := rx.SeeAll(BitsLevels(bits));
      r.active && !r.level.scl && r.bits == rx.bits + bits && r.events == rx.events
    decreases |bits|
  {
    if bits == [] {
      assert rx.bits + bits == rx.bits;
    } else {
      var front, last := bits[..|bits| - 1], bits[|bits| - 1];
      SeeBits(rx, front);
      SeeSplit(rx, BitsLevels(front), BitLevels(Level(false, false), last));
      SeeBit(rx.SeeAll(BitsLevels(front)), last);
      assert rx.bits + front + [last] == rx.bits + bits;
    }
  }

  lemma SeeByte(rx: Receiver, v: byte)
    requires rx.active && !rx.level.scl && rx.bits == []
    ensures rx.SeeAll(ByteLevels(v)) == Receiver(Level(true, false), true, [], rx.events + [Received(v)])
  {
    hide FromBits, BitsOf;
    SeeBits(rx, BitsOf(v));
    SeeSplit(rx, BitsLevels(BitsOf(v)), BitLevels(Level(false, false), true));
    SeeAcknowledge(rx.SeeAll(BitsLevels(BitsOf(v))));
    BitsRoundTrip(v);
    assert [] + BitsOf(v) == BitsOf(v);
  }

  lemma {:induction false} SeeBytes(rx: Receiver, bytes: seq<byte>)
    requires rx.active && rx.level == Level(false, false) && rx.bits == []
    ensures rx.SeeAll(BytesLevels(bytes))
         == Receiver(if bytes == [] then Level(false, false) else Level(true, false), true, [],
                     rx.events + ByteEvents(bytes))
    decreases |bytes|
  {
    if bytes == [] {
      assert rx.events + ByteEvents(bytes) == rx.events;
    } else {
      var front, last := bytes[..|bytes| - 1], bytes[|bytes| - 1];
      SeeBytes(rx, front);
      SeeSplit(rx, BytesLevels(front), ByteLevels(last));
      SeeByte(rx.SeeAll(BytesLevels(front)), last);
      assert rx.events + ByteEvents(front) + [Received(last)] == rx.events + ByteEvents(bytes);
    }
  }

  predicate IsIdle(rx: Receiver) {
    !rx.active && rx.bits == [] && rx.level == Level(true, true)
  }

  lemma SeeTransaction(rx: Receiver, bytes: seq<byte>)
    requires IsIdle(rx)
    ensures rx.SeeAll(TransactionLevels(bytes)) == rx.(events := rx.events + TransactionEvents(bytes))
  {
    var start, data := StartLevels(Level(true, true)), BytesLevels(bytes);
    var l := if bytes == [] then Level(false, false) else Level(true, false);
    SeeSplit(rx, start + data, StopLevels(l));
    SeeSplit(rx, start, data);
    SeeTwo(rx, Level(false, true), Level(false, false));
    var started := Receiver(Level(false, false), true, [], rx.events + [Started]);
    assert rx.SeeAll(start) == started;
    SeeBytes(started, bytes);
    var got := Receiver(l, true, [], started.events + ByteEvents(bytes));
    SeeSplit(got, [Level(l.sda, false), Level(false, false)], [Level(false, true), Level(true, true)]);
    SeeTwo(got, Level(l.sda, false), Level(false, false));
    var low := got.(level := Level(false, false));
    assert got.SeeAll([Level(l.sda, false), Level(false, false)]) == low;
    SeeTwo(low, Level(false, true), Level(true, true));
    assert StopLevels(l) == [Level(l.sda, false), Level(false, false)] + [Level(false, true), Level(true, true)];
    assert started.events + ByteEvents(bytes) + [Stopped] == rx.events + TransactionEvents(bytes);
  }

  /** The receiver recovers any list of transactions exactly: no byte is lost, none is
      invented, and there is no START or STOP but those of the transactions. */
  lemma {:induction false} SeeTransactions(rx: Receiver, transactions: seq<seq<byte>>)
    requires IsIdle(rx)
    ensures rx.SeeAll(AllLevels(transactions)) == rx.(events := rx.events + Events(transactions))
    decreases |transactions|
  {
    if transactions == [] {
      assert rx.events + [] == rx.events;
    } else {
      var front, last := transactions[..|transactions| - 1], transactions[|transactions| - 1];
      SeeTransactions(rx, front);
      SeeSplit(rx, AllLevels(front), TransactionLevels(last));
      SeeTransaction(rx.SeeAll(AllLevels(front)), last);
      assert rx.events + Events(front) + TransactionEvents(last) == rx.events + Events(transactions);
    }
  }

  /** How often SDA moves while SCL stays high. */
  function Moves(before: Level, ls: seq<Level>): nat
    decreases |ls|
  {
    if ls == [] then 0
    else (if before.scl && ls[0].scl && before.sda != ls[0].sda then 1 else 0) + Moves(ls[0], ls[1..])
  }

  /** How many of these are a START or a STOP. */
  function Marks(events: seq<Event>): nat {
    if events == [] then 0
    else Marks(events[..|events| - 1]) + if events[|events| - 1].Received? then 0 else 1
  }

  lemma OneMore(events: seq<Event>, e: Event)
    ensures Marks(events + [e]) == Marks(events) + if e.Received? then 0 else 1
  {
    assert (events + [e])[..|events|] == events;
  }

  lemma {:induction false} MovesAreMarks(rx: Receiver, ls: seq<Level>)
    ensures Marks(rx.SeeAll(ls).events) == Marks(rx.events) + Moves(rx.level, ls)
    decreases |ls|
  {
    if ls != [] {
      var now := rx.See(ls[0]);
      MovesAreMarks(now, ls[1..]);
      if now.events != rx.events {
        OneMore(rx.events, now.events[|rx.events|]);
      }
    }
  }

  lemma {:induction false} MarksOfBytes(events: seq<Event>, bytes: seq<byte>)
    ensures Marks(events + ByteEvents(bytes)) == Marks(events)
    decreases |bytes|
  {
    if bytes == [] {
      assert events + ByteEvents(bytes) == events;
    } else {
      var front, last := bytes[..|bytes| - 1], bytes[|bytes| - 1];
      MarksOfBytes(events, front);
      OneMore(events + ByteEvents(front), Received(last));
      assert events + ByteEvents(front) + [Received(last)] == events + ByteEvents(bytes);
    }
  }

  lemma MarksOfOne(events: seq<Event>, bytes: seq<byte>)
    ensures Marks(events + TransactionEvents(bytes)) == Marks(events) + 2
  {
    var begun := events + [Started];
    OneMore(events, Started);
    MarksOfBytes(begun, bytes);
    OneMore(begun + ByteEvents(bytes), Stopped);
    hide ByteEvents, Marks;
    assert begun + ByteEvents(bytes) + [Stopped] == events + TransactionEvents(bytes);
  }

  lemma {:induction false} MarksOfTransactions(transactions: seq<seq<byte>>)
    ensures Marks(Events(transactions)) == 2 * |transactions|
    decreases |transactions|
  {
    if transactions != [] {
      var front, last := transactions[..|transactions| - 1], transactions[|transactions| - 1];
      MarksOfTransactions(front);
      MarksOfOne(Events(front), last);
    }
  }

  /** SDA moves under high SCL twice a transaction, at its START and its STOP, and nowhere else. */
  lemma SdaIsStable(transactions: seq<seq<byte>>)
    ensures Moves(Level(true, true), AllLevels(transactions)) == 2 * |transactions|
  {
    var rx := Receiver(Level(true, true), false, [], []);
    SeeTransactions(rx, transactions);
    MovesAreMarks(rx, AllLevels(transactions));
    MarksOfTransactions(transactions);
    assert [] + Events(transactions) == Events(transactions);
  }

  /** Bringing the lines up is at most a STOP, for a receiver that is not addressed. */
  lemma SeeInit(rx: Receiver)
    requires !rx.active && rx.bits == []
    ensures rx.SeeAll(InitLevels(rx.level))
         == rx.(level := Level(true, true), events := rx.events + if rx.level.sda then [] else [Stopped])
  {
    SeeTwo(rx, Level(rx.level.sda, true), Level(true, true));
    assert rx.events + [] == rx.events;
  }

  /** After that, the transactions. */
  lemma SeeInitAndAll(rx: Receiver, transactions: seq<seq<byte>>)
    requires !rx.active && rx.bits == []
    ensures var r := rx.SeeAll(InitLevels(rx.level) + AllLevels(transactions));
      && IsIdle(r)
      && r.events == rx.events + (if rx.level.sda then [] else [Stopped]) + Events(transactions)
  {
    SeeInit(rx);
    SeeSplit(rx, InitLevels(rx.level), AllLevels(transactions));
    SeeTransactions(rx.SeeAll(InitLevels(rx.level)), transactions);
    hide AllLevels, InitLevels, Events;
  }
}
