/** The Elektor SDR driver (elektor.c): bit-banged I2C writes through the port of an
    FTDI chip, and the PLL registers that set a frequency. */
module ElektorDriver {
  import opened CArithmetic
  import opened I2cBus

  // ------------------------------------------------------------------ port

  /** SDA is bit 0 and SCL is bit 1 of the port; the other bits belong to others. */
  function LevelOf(port: byte): Level {
    Level(port % 2 == 1, (port / 2) % 2 == 1)
  }

  function OtherBits(port: byte): int {
    port / 4
  }

  function LevelsOf(ports: seq<byte>): (ls: seq<Level>)
    ensures |ls| == |ports|
  {
    seq(|ports|, i requires 0 <= i < |ports| => LevelOf(ports[i]))
  }

  /** after is before plus writes that show the levels ls; no other port bit changes. */
  ghost predicate Wrote(before: seq<byte>, after: seq<byte>, port0: byte, port1: byte, ls: seq<Level>) {
    && |after| == |before| + |ls| && after[..|before|] == before
    && LevelsOf(after[|before|..]) == ls
    && (forall i :: |before| <= i < |after| ==> OtherBits(after[i]) == OtherBits(port0))
    && OtherBits(port1) == OtherBits(port0)
    && LevelOf(port1) == (if ls == [] then LevelOf(port0) else ls[|ls| - 1])
  }

  lemma WroteThen(a: seq<byte>, b: seq<byte>, c: seq<byte>, p: byte, q: byte, r: byte, l1: seq<Level>, l2: seq<Level>)
    requires Wrote(a, b, p, q, l1) && Wrote(b, c, q, r, l2)
    ensures Wrote(a, c, p, r, l1 + l2)
  {
    hide LevelOf, OtherBits;
    assert c[|a|..] == b[|a|..] + c[|b|..] by {
      assert c[..|b|] == b;
    }
    assert LevelsOf(c[|a|..]) == LevelsOf(b[|a|..]) + LevelsOf(c[|b|..]);
    assert c[..|a|] == b[..|a|];
    forall i | |a| <= i < |c|
      ensures OtherBits(c[i]) == OtherBits(p)
    {
      if i < |b| {
        assert c[..|b|][i] == b[i];
      }
    }
  }

  const CHANGE_WRITES := 317

  /** A transaction is under way: START and some bytes are written, SCL is low. */
  ghost predicate WroteStart(before: seq<byte>, after: seq<byte>, port0: byte, port1: byte, bytes: seq<byte>) {
    Wrote(before, after, port0, port1, StartLevels(Level(true, true)) + BytesLevels(bytes))
  }

  lemma StartedLow(before: seq<byte>, after: seq<byte>, port0: byte, port1: byte, bytes: seq<byte>)
    requires WroteStart(before, after, port0, port1, bytes)
    ensures LevelOf(port1) == if bytes == [] then Level(false, false) else Level(true, false)
  {
    if bytes != [] {
      var last := ByteLevels(bytes[|bytes| - 1]);
      assert last[|last| - 1] == Level(true, false);
      var all := StartLevels(Level(true, true)) + BytesLevels(bytes);
      assert all[|all| - 1] == last[|last| - 1];
    }
  }

  lemma OneByte(a: seq<byte>, b: seq<byte>, c: seq<byte>, p: byte, q: byte, r: byte, bytes: seq<byte>, v: byte)
    requires WroteStart(a, b, p, q, bytes) && Wrote(b, c, q, r, ByteLevels(v))
    ensures WroteStart(a, c, p, r, bytes + [v])
  {
    var s := StartLevels(Level(true, true));
    WroteThen(a, b, c, p, q, r, s + BytesLevels(bytes), ByteLevels(v));
    assert (bytes + [v])[..|bytes|] == bytes;
    hide ByteLevels, Wrote;
    assert (s + BytesLevels(bytes)) + ByteLevels(v) == s + BytesLevels(bytes + [v]);
  }

  lemma InitIsIdle(a: seq<byte>, b: seq<byte>, p: byte, q: byte)
    requires Wrote(a, b, p, q, InitLevels(LevelOf(p)))
    ensures LevelOf(q) == Level(true, true)
  {
  }

  lemma ThreeTransactions(a: seq<byte>, b: seq<byte>, c: seq<byte>, d: seq<byte>, p: byte, q: byte, r: byte, s: byte,
                          t1: seq<byte>, t2: seq<byte>, t3: seq<byte>)
    requires Wrote(a, b, p, q, TransactionLevels(t1)) && Wrote(b, c, q, r, TransactionLevels(t2))
    requires Wrote(c, d, r, s, TransactionLevels(t3))
    ensures Wrote(a, d, p, s, AllLevels([t1, t2, t3]))
  {
    WroteThen(a, b, c, p, q, r, TransactionLevels(t1), TransactionLevels(t2));
    WroteThen(a, c, d, p, r, s, TransactionLevels(t1) + TransactionLevels(t2), TransactionLevels(t3));
    hide Wrote, TransactionLevels;
    assert [t1, t2, t3][..2] == [t1, t2] && [t1, t2][..1] == [t1] && [t1][..0] == [];
    assert AllLevels([t1]) == TransactionLevels(t1);
    assert AllLevels([t1, t2, t3]) == TransactionLevels(t1) + TransactionLevels(t2) + TransactionLevels(t3);
  }

  // -------------------------------------------------------- PLL registers

  function Pump(f: int): int {
    if f > 799 then 4 else if f > 639 then 3 else if f > 479 then 2 else 1
  }

  function R40(f: int): byte {
    (CDiv(CDiv(f, 2) - 4, 256) + 4 * Pump(f) + 192) % 256
  }

  function R41(f: int): byte {
    (CDiv(f, 2) - 4) % 256
  }

  function R42(f: int, vfoHigh: bool): byte {
    ((if vfoHigh then 23 else 48) + 128 * (f - 2 * CDiv(f, 2))) % 256
  }

  function PllTransactions(iicAdr: byte, f: int, vfoHigh: bool, div1N: byte, offs: byte): seq<seq<byte>> {
    [[iicAdr, 64, R40(f), R41(f), R42(f, vfoHigh)], [iicAdr, 12, div1N], [iicAdr, 19, offs]]
  }

  /** The total PLL divider that the three registers select. */
  function PllDivider(r40: byte, r41: byte, r42: byte): int {
    2 * ((r40 % 4) * 256 + r41 + 4) + r42 / 128
  }

  /** The registers hold the wanted divider exactly when it fits them. */
  lemma PllRoundTripIff(f: int, vfoHigh: bool)
    ensures PllDivider(R40(f), R41(f), R42(f, vfoHigh)) == f <==> 8 <= f < 2056
  {
    if 8 <= f < 2056 {
      var h := f / 2 - 4;
      assert R40(f) == h / 256 + 4 * Pump(f) + 192;
      assert R40(f) % 4 == h / 256;
      assert h == 256 * (h / 256) + h % 256;
    }
  }

  /** The other fields of the registers: 3 in the two highest bits of the first one, the charge
      pump, one higher from each of 480, 640 and 800 on, below them, and in the third one 23 or
      48 for the two ranges of the oscillator. */
  lemma RegisterFields(f: int, vfoHigh: bool)
    requires 8 <= f < 2056
    ensures R40(f) / 64 == 3
    ensures var pump := (R40(f) / 4) % 16;
      && (f < 480 <==> pump == 1) && (480 <= f < 640 <==> pump == 2)
      && (640 <= f < 800 <==> pump == 3) && (800 <= f <==> pump == 4)
    ensures R42(f, vfoHigh) % 128 == if vfoHigh then 23 else 48
  {
    var h := f / 2 - 4;
    assert R40(f) == h / 256 + 4 * Pump(f) + 192;
  }

  /** The mask of bit k, counted from the highest; 0 behind the last. */
  function Mask(k: nat): int {
    if k == 0 then 128 else Mask(k - 1) / 2
  }

  lemma MaskBounds()
    ensures Mask(0) == 128
  {
  }

  lemma MaskBit(v: byte, k: nat)
    requires k <= 8 && Mask(k) > 0
    ensures k < 8 && BitsOf(v)[k] == HasBit(v, Mask(k)) && Mask(k + 1) == Mask(k) / 2 >= 0
  {
    hide HasBit;
    MaskValues();
  }

  lemma MaskEnds(k: nat)
    requires k <= 8 && Mask(k) <= 0
    ensures k == 8
  {
    MaskValues();
  }

  lemma MaskValues()
    ensures Mask(0) == 128 && Mask(1) == 64 && Mask(2) == 32 && Mask(3) == 16
    ensures Mask(4) == 8 && Mask(5) == 4 && Mask(6) == 2 && Mask(7) == 1 && Mask(8) == 0
  {
    assert Mask(1) == 64;
    assert Mask(2) == 32;
    assert Mask(3) == 16;
    assert Mask(4) == 8;
    assert Mask(5) == 4;
    assert Mask(6) == 2;
    assert Mask(7) == 1;
  }

  lemma WroteNothing(w: seq<byte>, p: byte)
    ensures Wrote(w, w, p, p, BitsLevels([])) && Wrote(w, w, p, p, [])
  {
  }

  lemma OneBit(a: seq<byte>, b: seq<byte>, c: seq<byte>, p: byte, q: byte, r: byte, bits: seq<bool>, k: nat)
    requires k < |bits| && !LevelOf(q).scl
    requires Wrote(a, b, p, q, BitsLevels(bits[..k])) && Wrote(b, c, q, r, BitLevels(LevelOf(q), bits[k]))
    ensures Wrote(a, c, p, r, BitsLevels(bits[..k + 1])) && LevelOf(r) == Level(bits[k], false)
  {
    assert BitLevels(LevelOf(q), bits[k]) == BitLevels(Level(false, false), bits[k]);
    assert bits[..k + 1][..k] == bits[..k];
    WroteThen(a, b, c, p, q, r, BitsLevels(bits[..k]), BitLevels(LevelOf(q), bits[k]));
  }

  lemma Acknowledged(a: seq<byte>, b: seq<byte>, c: seq<byte>, p: byte, q: byte, r: byte, value: byte)
    requires !LevelOf(q).scl
    requires Wrote(a, b, p, q, BitsLevels(BitsOf(value))) && Wrote(b, c, q, r, BitLevels(LevelOf(q), true))
    ensures Wrote(a, c, p, r, ByteLevels(value)) && LevelOf(r) == Level(true, false)
  {
    hide BitsOf;
    assert BitLevels(LevelOf(q), true) == BitLevels(Level(false, false), true);
    WroteThen(a, b, c, p, q, r, BitsLevels(BitsOf(value)), BitLevels(LevelOf(q), true));
  }

  lemma Then2(a: seq<byte>, b: seq<byte>, c: seq<byte>, p: byte, q: byte, r: byte, l1: Level, l2: Level)
    requires Wrote(a, b, p, q, [l1]) && Wrote(b, c, q, r, [l2])
    ensures Wrote(a, c, p, r, [l1, l2])
  {
    WroteThen(a, b, c, p, q, r, [l1], [l2]);
    assert [l1] + [l2] == [l1, l2];
  }

  /** Whatever the port showed before, a receiver that is not addressed sees exactly the
      transactions in the port writes, after a STOP if SDA was low, and ends idle. */
  lemma WritesArrive(before: seq<byte>, after: seq<byte>, port0: byte, port1: byte, ts: seq<seq<byte>>, rx: Receiver)
    requires Wrote(before, after, port0, port1, InitLevels(LevelOf(port0)) + AllLevels(ts))
    requires !rx.active && rx.bits == [] && rx.level == LevelOf(port0)
    ensures var r := rx.SeeAll(LevelsOf(after[|before|..]));
      IsIdle(r) && r.events == rx.events + (if LevelOf(port0).sda then [] else [Stopped]) + Events(ts)
  {
    SeeInitAndAll(rx, ts);
    hide AllLevels, InitLevels, Events;
  }

  // -------------------------------------------------------------- tuning

  const IIC_RAM: byte := 210
  const BAND_DIV1N: seq<byte> := [4, 5, 10, 25, 50, 100]
  const BAND_VFO_HIGH: seq<bool> := [true, false, false, false, false, false]
  const BAND_HIGH: seq<real> := [30.0, 16.0, 8.0, 3.2, 1.6, 0.8]
  const BAND_MIN: seq<int> := [400, 400, 400, 400, 400, 260]
  const BAND_MAX: seq<int> := [1200, 1600, 1600, 1600, 1600, 1600]
  const STEP_KHZ: seq<real> := [25.0, 10.0, 5.0, 2.0, 1.0, 0.5]     // one step of the divider

  /** No narrower band reaches up to freq (MHz); the widest is taken for any higher one. */
  ghost predicate IsNarrowest(freq: real, band: nat) {
    && band < 6 && (freq <= BAND_HIGH[band] || band == 0)
    && forall b :: band < b < 6 ==> freq > BAND_HIGH[b]
  }

  lemma OneNarrowest(freq: real, a: nat, b: nat)
    requires IsNarrowest(freq, a) && IsNarrowest(freq, b)
    ensures a == b
  {
  }

  function BandOf(freq: real): (b: nat)
    ensures IsNarrowest(freq, b)
  {
    if freq <= 0.8 then 5 else if freq <= 1.6 then 4 else if freq <= 3.2 then 3
    else if freq <= 8.0 then 2 else if freq <= 16.0 then 1 else 0
  }

  /** kHz per step of the divider: EFreq(1). */
  function StepKHz(band: nat): int
    requires band < 6
  {
    if BAND_VFO_HIGH[band] then 400 / BAND_DIV1N[band] else 200 / BAND_DIV1N[band]
  }

  function Wanted(freq: real): int {
    (freq * 4000.0 / StepKHz(BandOf(freq)) as real + 0.5).Floor
  }

  /** EFreq, in kHz */
  function EFreq(f: int, band: nat): real
    requires band < 6
  {
    (CDiv(f * (if BAND_VFO_HIGH[band] then 400 else 200), BAND_DIV1N[band])) as real / 4.0
  }

  /** The divider f lies inside the limits of the narrowest band for freq (MHz), survives the
      registers, and tunes to within half a step of freq. */
  ghost predicate TunesTo(f: int, band: nat, freq: real) {
    && IsNarrowest(freq, band)
    && BAND_MIN[band] <= f <= BAND_MAX[band]
    && PllDivider(R40(f), R41(f), R42(f, band == 0)) == f
    && -1.0 <= 2.0 * (f as real * STEP_KHZ[band] - 1000.0 * freq) / STEP_KHZ[band] <= 1.0
  }

  lemma NearestStep(c: real)
    requires 0.13 <= c <= 30.0
    ensures var b := BandOf(c); var f := Wanted(c);
      && BAND_MIN[b] <= f <= BAND_MAX[b]
      && -1.0 <= 2.0 * (EFreq(f, b) - 1000.0 * c) / (EFreq(1, b)) <= 1.0
  {
    WantedIsInBand(c);
    var b, f := BandOf(c), Wanted(c);
    EFreqIs(f, b);
    EFreqIs(1, b);
    hide Wanted, EFreq, BandOf, StepKHz;
    WantedIs(c);
    Rounded(c, StepKHz(b) as real, f, EFreq(f, b), EFreq(1, b));
  }

  lemma WantedIs(c: real)
    requires StepKHz(BandOf(c)) > 0
    ensures Wanted(c) == (c * 4000.0 / StepKHz(BandOf(c)) as real + 0.5).Floor
  {
  }

  lemma WantedIsInBand(c: real)
    requires 0.13 <= c <= 30.0
    ensures var b := BandOf(c); StepKHz(b) > 0 && BAND_MIN[b] <= Wanted(c) <= BAND_MAX[b]
  {
    var b, f := BandOf(c), Wanted(c);
    if b == 5 {
      assert f == (c * 4000.0 / 2.0 + 0.5).Floor;
    } else if b == 4 {
      assert f == (c * 4000.0 / 4.0 + 0.5).Floor;
    } else if b == 3 {
      assert f == (c * 4000.0 / 8.0 + 0.5).Floor;
    } else if b == 2 {
      assert f == (c * 4000.0 / 20.0 + 0.5).Floor;
    } else if b == 1 {
      assert f == (c * 4000.0 / 40.0 + 0.5).Floor;
    } else {
      assert f == (c * 4000.0 / 100.0 + 0.5).Floor;
    }
  }

  lemma EFreqIs(f: int, band: nat)
    requires f >= 0 && band < 6
    ensures EFreq(f, band) == f as real * StepKHz(band) as real / 4.0
  {
    if band == 5 {
      assert StepKHz(band) == 2 && CDiv(f * 200, 100) == 2 * f;
    } else if band == 4 {
      assert StepKHz(band) == 4 && CDiv(f * 200, 50) == 4 * f;
    } else if band == 3 {
      assert StepKHz(band) == 8 && CDiv(f * 200, 25) == 8 * f;
    } else if band == 2 {
      assert StepKHz(band) == 20 && CDiv(f * 200, 10) == 20 * f;
    } else if band == 1 {
      assert StepKHz(band) == 40 && CDiv(f * 200, 5) == 40 * f;
    } else {
      assert StepKHz(band) == 100 && CDiv(f * 400, 4) == 100 * f;
    }
  }

  lemma Rounded(c: real, s: real, f: int, ef: real, e1: real)
    requires s > 0.0 && f == (c * 4000.0 / s + 0.5).Floor
    requires ef == f as real * s / 4.0 && e1 == 1 as real * s / 4.0
    ensures e1 > 0.0 && -1.0 <= 2.0 * (ef - 1000.0 * c) / e1 <= 1.0
  {
    var x := c * 4000.0 / s;
    assert x * s == c * 4000.0;
    var e := f as real - x;
    assert -0.5 <= e <= 0.5;
    assert ef - 1000.0 * c == e * e1;
    Share(e, e1, 2.0 * (ef - 1000.0 * c));
  }

  lemma Share(e: real, e1: real, d: real)
    requires e1 > 0.0 && d == 2.0 * (e * e1)
    ensures d / e1 == 2.0 * e
  {
    assert d == (2.0 * e) * e1;
  }

  /** EFreq counts in these steps. */
  lemma EFreqIsSteps(f: int, band: nat)
    requires f >= 0 && band < 6
    ensures EFreq(f, band) == f as real * STEP_KHZ[band]
  {
    EFreqIs(f, band);
  }

  /** Every frequency the receiver covers is tuned to the nearest step. */
  lemma TuningIsNearest(freq: real)
    requires 0.13 <= freq <= 30.0
    ensures TunesTo(Wanted(freq), BandOf(freq), freq)
  {
    NearestStep(freq);
    PllRoundTripIff(Wanted(freq), BandOf(freq) == 0);
    EFreqIsSteps(Wanted(freq), BandOf(freq));
    EFreqIsSteps(1, BandOf(freq));
    hide Wanted, EFreq, BandOf, IsNarrowest, PllDivider;
  }

  class Elektor {
    const data: array<byte>          // FtdiData
    var count: nat                   // Fdti_Data_Count
    var port: byte                   // FT_port
    var freqWanted: int              // FreqWanted
    var vfoHigh: bool                // VFOhigh
    var div1N: byte                  // Div1N
    var band: nat                    // egr_band_no
    const offsHz: seq<byte>          // offs_hz per band

    constructor (data: array<byte>, port: byte, offsHz: seq<byte>)
      ensures this.data == data && this.port == port && this.offsHz == offsHz && count == 0
    {
      this.data, this.port, this.offsHz, count := data, port, offsHz, 0;
      freqWanted, vfoHigh, div1N, band := 0, false, 0, 0;
    }

    ghost predicate Room(n: nat)
      reads this
    {
      count + n <= data.Length
    }

    ghost function Written(): (w: seq<byte>)
      requires Room(0)
      reads this, data
      ensures |w| == count
    {
      data[..count]
    }

    method PutPort(p: byte)
      requires Room(1)
      modifies this`port, this`count, data
      ensures Room(0) && port == p && Written() == old(Written()) + [p]
    {
      port := p;
      data[count] := port;
      count := count + 1;
    }

    method SDA(on: bool)
      requires Room(1)
      modifies this`port, this`count, data
      ensures Room(0) && count == old(count) + 1
      ensures port / 2 == old(port) / 2 && port % 2 == Bit(on)
      ensures Wrote(old(Written()), Written(), old(port), port, [Level(on, LevelOf(old(port)).scl)])
    {
      PutPort(if on then port - port % 2 + 1 else port - port % 2);
    }

    method SCL(on: bool)
      requires Room(1)
      modifies this`port, this`count, data
      ensures Room(0) && count == old(count) + 1
      ensures port / 4 == old(port) / 4 && port % 2 == old(port) % 2 && (port / 2) % 2 == Bit(on)
      ensures Wrote(old(Written()), Written(), old(port), port, [Level(LevelOf(old(port)).sda, on)])
    {
      var bit := (port / 2) % 2;
      PutPort(if on then port - 2 * bit + 2 else port - 2 * bit);
    }

    method I2CInit()
      requires Room(2)
      modifies this`port, this`count, data
      ensures Room(0) && count == old(count) + 2
      ensures Wrote(old(Written()), Written(), old(port), port, InitLevels(LevelOf(old(port))))
    {
      hide Wrote, LevelOf;
      ghost var w0, p0, l := Written(), port, LevelOf(port);
      SCL(true);
      ghost var w1, p1 := Written(), port;
      SDA(true);
      Then2(w0, w1, Written(), p0, p1, port, Level(l.sda, true), Level(true, true));
    }

    method Start()
      requires Room(2)
      modifies this`port, this`count, data
      ensures Room(0) && count == old(count) + 2
      ensures Wrote(old(Written()), Written(), old(port), port, StartLevels(LevelOf(old(port))))
    {
      hide Wrote, LevelOf;
      ghost var w0, p0, l := Written(), port, LevelOf(port);
      SDA(false);
      ghost var w1, p1 := Written(), port;
      SCL(false);
      Then2(w0, w1, Written(), p0, p1, port, Level(false, l.scl), Level(false, false));
    }

    method Stop()
      requires Room(4)
      modifies this`port, this`count, data
      ensures Room(0) && count == old(count) + 4
      ensures Wrote(old(Written()), Written(), old(port), port, StopLevels(LevelOf(old(port))))
    {
      hide Wrote, LevelOf;
      ghost var w0, p0, l := Written(), port, LevelOf(port);
      SCL(false);
      ghost var w1, p1 := Written(), port;
      SDA(false);
      ghost var w2, p2 := Written(), port;
      Then2(w0, w1, w2, p0, p1, p2, Level(l.sda, false), Level(false, false));
      SCL(true);
      ghost var w3, p3 := Written(), port;
      SDA(true);
      Then2(w2, w3, Written(), p2, p3, port, Level(false, true), Level(true, true));
      WroteThen(w0, w2, Written(), p0, p2, port,
                [Level(l.sda, false), Level(false, false)], [Level(false, true), Level(true, true)]);
      assert StopLevels(l) == [Level(l.sda, false), Level(false, false)] + [Level(false, true), Level(true, true)];
    }

    /** Set the data line and pulse the clock, once. */
    method ClockOut(bit: bool)
      requires Room(3)
      modifies this`port, this`count, data
      ensures Room(0) && count == old(count) + 3
      ensures Wrote(old(Written()), Written(), old(port), port, BitLevels(LevelOf(old(port)), bit))
    {
      hide Wrote, LevelOf;
      ghost var w0, p0, l := Written(), port, LevelOf(port);
      SDA(bit);
      ghost var w1, p1 := Written(), port;
      SCL(true);
      ghost var w2, p2 := Written(), port;
      Then2(w0, w1, w2, p0, p1, p2, Level(bit, l.scl), Level(bit, true));
      SCL(false);
      WroteThen(w0, w2, Written(), p0, p2, port, [Level(bit, l.scl), Level(bit, true)], [Level(bit, false)]);
      assert BitLevels(l, bit) == [Level(bit, l.scl), Level(bit, true)] + [Level(bit, false)];
    }

    /** The eight data bits of SetupBytes, the highest first. */
    method SendBits(value: byte)
      requires Room(24) && !LevelOf(port).scl
      modifies this`port, this`count, data
      ensures Room(0) && count == old(count) + 24 && !LevelOf(port).scl
      ensures Wrote(old(Written()), Written(), old(port), port, BitsLevels(BitsOf(value)))
    {
      hide Wrote, LevelOf, BitsOf, Mask, HasBit;
      ghost var w0, p0, k := Written(), port, 0;
      ghost var bits := BitsOf(value);
      var i := 128;
      WroteNothing(w0, p0);
      MaskBounds();
      assert bits[..0] == [] && bits[..8] == bits;
      while i > 0
        invariant 0 <= k <= 8 && i == Mask(k) >= 0
        invariant count == old(count) + 3 * k && Room(24 - 3 * k) && !LevelOf(port).scl
        invariant Wrote(w0, Written(), p0, port, BitsLevels(bits[..k]))
        decreases i
      {
        ghost var w, p := Written(), port;
        MaskBit(value, k);
        ClockOut(HasBit(value, i));
        OneBit(w0, w, Written(), p0, p, port, bits, k);
        i := i / 2;
        k := k + 1;
      }
      MaskEnds(k);
    }

    method SetupBytes(value: byte)
      requires Room(27) && !LevelOf(port).scl
      modifies this`port, this`count, data
      ensures Room(0) && count == old(count) + 27
      ensures Wrote(old(Written()), Written(), old(port), port, ByteLevels(value))
      ensures LevelOf(port) == Level(true, false)
    {
      hide Wrote, LevelOf, BitsOf;
      ghost var w0, p0 := Written(), port;
      SendBits(value);
      ghost var w, p := Written(), port;
      ClockOut(true);
      Acknowledged(w0, w, Written(), p0, p, port, value);
    }

    /** START on an idle bus. */
    method Begin()
      requires Room(2) && LevelOf(port) == Level(true, true)
      modifies this`port, this`count, data
      ensures Room(0) && count == old(count) + 2
      ensures WroteStart(old(Written()), Written(), old(port), port, [])
    {
      Start();
      assert StartLevels(Level(true, true)) + BytesLevels([]) == StartLevels(Level(true, true));
    }

    /** One more byte of a transaction that began when `before` was written. */
    method Put(value: byte, ghost before: seq<byte>, ghost port0: byte, ghost bytes: seq<byte>)
      requires Room(27) && WroteStart(before, Written(), port0, port, bytes)
      modifies this`port, this`count, data
      ensures Room(0) && count == old(count) + 27
      ensures WroteStart(before, Written(), port0, port, bytes + [value])
    {
      ghost var w, p := Written(), port;
      StartedLow(before, w, port0, p, bytes);
      hide Wrote, LevelOf, WroteStart;
      SetupBytes(value);
      OneByte(before, w, Written(), port0, p, port, bytes, value);
    }

    /** STOP: the transaction is complete and the bus idle. */
    method End(ghost before: seq<byte>, ghost port0: byte, ghost bytes: seq<byte>)
      requires Room(4) && WroteStart(before, Written(), port0, port, bytes)
      modifies this`port, this`count, data
      ensures Room(0) && count == old(count) + 4
      ensures Wrote(before, Written(), port0, port, TransactionLevels(bytes)) && LevelOf(port) == Level(true, true)
    {
      ghost var w, p := Written(), port;
      StartedLow(before, w, port0, p, bytes);
      hide LevelOf;
      Stop();
      WroteThen(before, w, Written(), port0, p, port,
                StartLevels(Level(true, true)) + BytesLevels(bytes), StopLevels(LevelOf(p)));
    }

    method ChangeElektorFreq(iicAdr: byte)
      requires Room(CHANGE_WRITES) && band < |offsHz|
      modifies this`port, this`count, data
      ensures Room(0) && count == old(count) + CHANGE_WRITES
      ensures Wrote(old(Written()), Written(), old(port), port,
                InitLevels(LevelOf(old(port)))
                + AllLevels(PllTransactions(iicAdr, freqWanted, vfoHigh, div1N, offsHz[band])))
    {
      hide Wrote, LevelOf, WroteStart, R40, R41, R42;
      var r40, r41, r42 := R40(freqWanted), R41(freqWanted), R42(freqWanted, vfoHigh);
      ghost var w, p := Written(), port;
      I2CInit();
      ghost var w0, p0 := Written(), port;
      InitIsIdle(w, w0, p, p0);
      SendPll(iicAdr, r40, r41, r42);
      ghost var w1, p1 := Written(), port;
      SendRegister(iicAdr, 12, div1N);
      ghost var w2, p2 := Written(), port;
      SendRegister(iicAdr, 19, offsHz[band]);
      ThreeTransactions(w0, w1, w2, Written(), p0, p1, p2, port,
                        [iicAdr, 64, r40, r41, r42], [iicAdr, 12, div1N], [iicAdr, 19, offsHz[band]]);
      WroteThen(w, w0, Written(), p, p0, port, InitLevels(LevelOf(p)),
                AllLevels(PllTransactions(iicAdr, freqWanted, vfoHigh, div1N, offsHz[band])));
    }

    method SendPll(iicAdr: byte, r40: byte, r41: byte, r42: byte)
      requires Room(141) && LevelOf(port) == Level(true, true)
      modifies this`port, this`count, data
      ensures Room(0) && count == old(count) + 141 && LevelOf(port) == Level(true, true)
      ensures Wrote(old(Written()), Written(), old(port), port, TransactionLevels([iicAdr, 64, r40, r41, r42]))
    {
      hide Wrote, LevelOf, WroteStart;
      ghost var w, p := Written(), port;
      Begin();
      Put(iicAdr, w, p, []);
      Put(64, w, p, [] + [iicAdr]);
      Put(r40, w, p, [] + [iicAdr] + [64]);
      Put(r41, w, p, [] + [iicAdr] + [64] + [r40]);
      Put(r42, w, p, [] + [iicAdr] + [64] + [r40] + [r41]);
      End(w, p, [] + [iicAdr] + [64] + [r40] + [r41] + [r42]);
      assert [] + [iicAdr] + [64] + [r40] + [r41] + [r42] == [iicAdr, 64, r40, r41, r42];
    }

    method SendRegister(iicAdr: byte, register: byte, value: byte)
      requires Room(87) && LevelOf(port) == Level(true, true)
      modifies this`port, this`count, data
      ensures Room(0) && count == old(count) + 87 && LevelOf(port) == Level(true, true)
      ensures Wrote(old(Written()), Written(), old(port), port, TransactionLevels([iicAdr, register, value]))
    {
      hide Wrote, LevelOf, WroteStart;
      ghost var w, p := Written(), port;
      Begin();
      Put(iicAdr, w, p, []);
      Put(register, w, p, [] + [iicAdr]);
      Put(value, w, p, [] + [iicAdr] + [register]);
      End(w, p, [] + [iicAdr] + [register] + [value]);
      assert [] + [iicAdr] + [register] + [value] == [iicAdr, register, value];
    }

    /** calc_Band */
    method CalcBand(freq: real)
      modifies this`band, this`vfoHigh, this`div1N
      ensures IsNarrowest(freq, band) && (freq <= 30.0 ==> freq <= BAND_HIGH[band])
      ensures div1N == BAND_DIV1N[band] && vfoHigh == (band == 0)
    {
      band := if freq <= BAND_HIGH[5] then 5
              else if freq <= BAND_HIGH[4] then 4
              else if freq <= BAND_HIGH[3] then 3
              else if freq <= BAND_HIGH[2] then 2
              else if freq <= BAND_HIGH[1] then 1
              else 0;
      div1N := BAND_DIV1N[band];
      vfoHigh := BAND_VFO_HIGH[band];
    }

    /** Set_Elektor_Freq, without the aerial multiplexer and the preselector. */
    method SetElektorFreq(centerFreq: real)
      requires Room(CHANGE_WRITES) && |offsHz| == 6
      modifies this`band, this`vfoHigh, this`div1N, this`freqWanted, this`port, this`count, data
      ensures Room(0) && count == old(count) + CHANGE_WRITES
      ensures 0.13 <= centerFreq <= 30.0 ==> TunesTo(freqWanted, band, centerFreq)
      ensures centerFreq < 0.13 ==> TunesTo(freqWanted, band, 0.13)
      ensures centerFreq > 30.0 ==> TunesTo(freqWanted, band, 30.0)
      ensures band < 6
      ensures Wrote(old(Written()), Written(), old(port), port,
                    InitLevels(LevelOf(old(port)))
                    + AllLevels([[IIC_RAM, 64, R40(freqWanted), R41(freqWanted), R42(freqWanted, band == 0)],
                                 [IIC_RAM, 12, BAND_DIV1N[band]], [IIC_RAM, 19, offsHz[band]]]))
    {
      hide Wrote, LevelOf, InitLevels, AllLevels, TunesTo, R40, R41, R42;
      var freq := if centerFreq < 0.13 then 0.13 else if centerFreq > 30.0 then 30.0 else centerFreq;
      TuningIsNearest(freq);
      CalcBand(freq);
      OneNarrowest(freq, band, BandOf(freq));
      if vfoHigh {
        freqWanted := (freq * 4000.0 / (400 / div1N) as real + 0.5).Floor;
      } else {
        freqWanted := (freq * 4000.0 / (200 / div1N) as real + 0.5).Floor;
      }
      ChangeElektorFreq(IIC_RAM);
    }
  }
}
