/**
 * The bit layout of a fan's 32-bit state integer: which bits hold which
 * field. This is the reference that both decoders are proved against; it
 * is written with division and remainder by powers of two, independently of
 * the bitwise operators the decoders use.
 *
 *   bits 0-2   speed          bit 3   cool flag     bit 4   power
 *   bit 5      led            bit 7   sleep         bits 8-14  brightness
 *   bit 15     warm flag      bits 16-19 fan timer  bits 24-31 elapsed timer,
 *                                                   in units of four minutes
 *
 * Bit 6 and bits 20-23 are not read by either decoder.
 */
module StateLayout {
  import opened JsNumber

  datatype Layout = Layout(
    speed: nat,
    cool: bool,
    power: bool,
    led: bool,
    sleep: bool,
    brightness: nat,
    warm: bool,
    fanTimer: nat,
    elapsed: nat)

  /** Every field fits in its bits. */
  predicate InRange(l: Layout)
  {
    l.speed < 8 && l.brightness < 0x80 && l.fanTimer < 0x10 && l.elapsed < 0x100
  }

  /** The fields of a state word. */
  function Unpack(u: nat): (l: Layout)
    requires u < TWO_32
    ensures InRange(l)
  {
    Layout(
      speed := u % 8,
      cool := (u / 0x8) % 2 == 1,
      power := (u / 0x10) % 2 == 1,
      led := (u / 0x20) % 2 == 1,
      sleep := (u / 0x80) % 2 == 1,
      brightness := (u / 0x100) % 0x80,
      warm := (u / 0x8000) % 2 == 1,
      fanTimer := (u / 0x1_0000) % 0x10,
      elapsed := u / 0x100_0000)
  }

  function Flag(b: bool): nat
  {
    if b then 1 else 0
  }

  /** The state word a device reports for the given fields, unused bits clear. */
  function Pack(l: Layout): (u: nat)
    requires InRange(l)
    ensures u < TWO_32
  {
    l.speed + 0x8 * Flag(l.cool) + 0x10 * Flag(l.power) + 0x20 * Flag(l.led)
    + 0x80 * Flag(l.sleep) + 0x100 * l.brightness + 0x8000 * Flag(l.warm)
    + 0x1_0000 * l.fanTimer + 0x100_0000 * l.elapsed
  }

  /** Bit 6 and bits 20-23 are clear. */
  predicate UnusedBitsClear(u: nat)
  {
    (u / 0x40) % 2 == 0 && (u / 0x10_0000) % 0x10 == 0
  }

  /** Unpacking recovers every packed field. */
  lemma UnpackPack(l: Layout)
    requires InRange(l)
    ensures Unpack(Pack(l)) == l
    ensures UnusedBitsClear(Pack(l))
  {
    UnpackPackLow(l);
    UnpackPackHigh(l);
  }

  lemma UnpackPackLow(l: Layout)
    requires InRange(l)
    ensures var u := Pack(l);
      u % 8 == l.speed && (u / 0x8) % 2 == Flag(l.cool) && (u / 0x10) % 2 == Flag(l.power)
      && (u / 0x20) % 2 == Flag(l.led) && (u / 0x40) % 2 == 0 && (u / 0x80) % 2 == Flag(l.sleep)
  {
    var c, p, d, s := Flag(l.cool), Flag(l.power), Flag(l.led), Flag(l.sleep);
    var h := l.brightness + 0x80 * Flag(l.warm) + 0x100 * l.fanTimer + 0x1_0000 * l.elapsed;
    assert Pack(l) == l.speed + 8 * c + 0x10 * p + 0x20 * d + 0x80 * s + 0x100 * h;
    LowNibble(Pack(l), l.speed, c, p, d, s, h);
    HighNibble(Pack(l), l.speed, c, p, d, s, h);
  }

  lemma LowNibble(u: nat, speed: nat, c: nat, p: nat, d: nat, s: nat, h: nat)
    requires speed < 8 && c < 2 && p < 2 && d < 2 && s < 2
    requires u == speed + 8 * c + 0x10 * p + 0x20 * d + 0x80 * s + 0x100 * h
    ensures u % 8 == speed && (u / 0x8) % 2 == c
  {
    FieldAt(u, 1, 8, 0, speed, c + 2 * p + 4 * d + 0x10 * s + 0x20 * h);
    FieldAt(u, 0x8, 2, speed, c, p + 2 * d + 8 * s + 0x10 * h);
  }

  lemma HighNibble(u: nat, speed: nat, c: nat, p: nat, d: nat, s: nat, h: nat)
    requires speed < 8 && c < 2 && p < 2 && d < 2 && s < 2
    requires u == speed + 8 * c + 0x10 * p + 0x20 * d + 0x80 * s + 0x100 * h
    ensures (u / 0x10) % 2 == p && (u / 0x20) % 2 == d && (u / 0x40) % 2 == 0 && (u / 0x80) % 2 == s
  {
    FieldAt(u, 0x10, 2, speed + 8 * c, p, d + 4 * s + 8 * h);
    FieldAt(u, 0x20, 2, speed + 8 * c + 0x10 * p, d, 2 * s + 4 * h);
    FieldAt(u, 0x40, 2, speed + 8 * c + 0x10 * p + 0x20 * d, 0, s + 2 * h);
    FieldAt(u, 0x80, 2, speed + 8 * c + 0x10 * p + 0x20 * d, s, h);
  }

  lemma UnpackPackHigh(l: Layout)
    requires InRange(l)
    ensures var u := Pack(l);
      (u / 0x100) % 0x80 == l.brightness && (u / 0x8000) % 2 == Flag(l.warm)
      && (u / 0x1_0000) % 0x10 == l.fanTimer && (u / 0x10_0000) % 0x10 == 0
      && u / 0x100_0000 == l.elapsed
  {
    var u := Pack(l);
    var b, w, t, e := l.brightness, Flag(l.warm), l.fanTimer, l.elapsed;
    var low8 := l.speed + 8 * Flag(l.cool) + 0x10 * Flag(l.power) + 0x20 * Flag(l.led) + 0x80 * Flag(l.sleep);
    assert low8 < 0x100;
    assert u == low8 + 0x100 * b + 0x8000 * w + 0x1_0000 * t + 0x100_0000 * e;
    MiddleBytes(u, low8, b, w, t, e);
    TopBytes(u, low8, b, w, t, e);
  }

  lemma MiddleBytes(u: nat, low8: nat, b: nat, w: nat, t: nat, e: nat)
    requires low8 < 0x100 && b < 0x80 && w < 2 && t < 0x10
    requires u == low8 + 0x100 * b + 0x8000 * w + 0x1_0000 * t + 0x100_0000 * e
    ensures (u / 0x100) % 0x80 == b && (u / 0x8000) % 2 == w
  {
    FieldAt(u, 0x100, 0x80, low8, b, w + 2 * t + 0x200 * e);
    FieldAt(u, 0x8000, 2, low8 + 0x100 * b, w, t + 0x100 * e);
  }

  lemma TopBytes(u: nat, low8: nat, b: nat, w: nat, t: nat, e: nat)
    requires low8 < 0x100 && b < 0x80 && w < 2 && t < 0x10 && e < 0x100
    requires u == low8 + 0x100 * b + 0x8000 * w + 0x1_0000 * t + 0x100_0000 * e
    ensures (u / 0x1_0000) % 0x10 == t && (u / 0x10_0000) % 0x10 == 0 && u / 0x100_0000 == e
  {
    FieldAt(u, 0x1_0000, 0x10, low8 + 0x100 * b + 0x8000 * w, t, 0x10 * e);
    FieldAt(u, 0x10_0000, 0x10, low8 + 0x100 * b + 0x8000 * w + 0x1_0000 * t, 0, e);
    FieldAt(u, 0x100_0000, 0x100, low8 + 0x100 * b + 0x8000 * w + 0x1_0000 * t, e, 0);
  }

  lemma FlagOfBit(x: nat)
    ensures Flag(x % 2 == 1) == x % 2
  {
  }

  /** A word whose unused bits are clear is determined by its fields. */
  lemma PackUnpack(u: nat)
    requires u < TWO_32 && UnusedBitsClear(u)
    ensures Pack(Unpack(u)) == u
  {
    var l := Unpack(u);
    FlagOfBit(u / 0x8);
    FlagOfBit(u / 0x10);
    FlagOfBit(u / 0x20);
    FlagOfBit(u / 0x80);
    FlagOfBit(u / 0x8000);
    assert Pack(l) == u % 8 + 0x8 * ((u / 0x8) % 2) + 0x10 * ((u / 0x10) % 2) + 0x20 * ((u / 0x20) % 2)
      + 0x80 * ((u / 0x80) % 2) + 0x100 * ((u / 0x100) % 0x80) + 0x8000 * ((u / 0x8000) % 2)
      + 0x1_0000 * ((u / 0x1_0000) % 0x10) + 0x100_0000 * (u / 0x100_0000);
    WordFromFields(u);
  }

  /** A word is the sum of its bit groups, each at its place value. */
  lemma WordFromFields(u: nat)
    ensures u == u % 8 + 0x8 * ((u / 0x8) % 2) + 0x10 * ((u / 0x10) % 2) + 0x20 * ((u / 0x20) % 2)
      + 0x40 * ((u / 0x40) % 2) + 0x80 * ((u / 0x80) % 2) + 0x100 * ((u / 0x100) % 0x80)
      + 0x8000 * ((u / 0x8000) % 2) + 0x1_0000 * ((u / 0x1_0000) % 0x10)
      + 0x10_0000 * ((u / 0x10_0000) % 0x10) + 0x100_0000 * (u / 0x100_0000)
  {
    DivStep(u, 1, 8);
    DivStep(u, 0x8, 2);
    DivStep(u, 0x10, 2);
    DivStep(u, 0x20, 2);
    DivStep(u, 0x40, 2);
    DivStep(u, 0x80, 2);
    DivStep(u, 0x100, 0x80);
    DivStep(u, 0x8000, 2);
    DivStep(u, 0x1_0000, 0x10);
    DivStep(u, 0x10_0000, 0x10);
  }

  /**
   * The bit tests both decoders write, `v & 0x07` and `(v & bit) > 0`, read
   * the fields of ToUint32(v).
   */
  lemma FlagBits(v: Number)
    ensures var l := Unpack(ToUint32(v));
      && BitAnd(v, Int(0x07)) == l.speed
      && (BitAnd(v, Int(0x08)) > 0 <==> l.cool)
      && (BitAnd(v, Int(0x10)) > 0 <==> l.power)
      && (BitAnd(v, Int(0x20)) > 0 <==> l.led)
      && (BitAnd(v, Int(0x80)) > 0 <==> l.sleep)
      && (BitAnd(v, Int(0x8000)) > 0 <==> l.warm)
  {
    Pow2Table();
    MaskedField(v, 0, 3);
    assert Mask(0, 3) == 7;
    FlagBit(v, 3, 0x8);
    FlagBit(v, 4, 0x10);
    FlagBit(v, 5, 0x20);
    FlagBit(v, 7, 0x80);
    FlagBit(v, 15, 0x8000);
  }

  /** The four colours by the cool and warm flags. */
  predicate ColorTable(color: string, cool: bool, warm: bool)
  {
    (color == "daylight" <==> cool && warm)
    && (color == "cool" <==> cool && !warm)
    && (color == "warm" <==> !cool && warm)
    && (color == "none" <==> !cool && !warm)
  }

  /** The colour chain both decoders write (an if-chain, a nested ternary) follows the table. */
  lemma ColorChain(cool: bool, warm: bool, color: string)
    requires color == (if cool && warm then "daylight" else if cool then "cool" else if warm then "warm" else "none")
    ensures ColorTable(color, cool, warm)
  {
  }

  /** The top byte is 0x80 or more exactly when bit 31 is set. */
  lemma TopBit(u: nat)
    requires u < TWO_32
    ensures u / 0x100_0000 >= 0x80 <==> u >= TWO_31
  {
    assert u == 0x100_0000 * (u / 0x100_0000) + u % 0x100_0000;
  }

  lemma FourTimes(k: int)
    ensures (4 * k) % 4 == 0
  {
  }
}
