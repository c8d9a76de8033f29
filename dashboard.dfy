/**
 * The dashboard (src/App.jsx): its decoder of a state integer, the reading of
 * the first field of a state_string, the update of the device list on a live
 * message, and the range checks in front of the speed and brightness
 * commands.
 */
module Dashboard {
  import opened Wrappers
  import opened JsNumber
  import opened JsText
  import opened JsValues
  import opened StateLayout

  /** The object decodeStateValue returns. */
  datatype Decoded = Decoded(
    power: bool,
    led: bool,
    sleep: bool,
    speed: int,
    fanTimer: int,
    fanTimerElapsedMins: int,
    brightness: int,
    cool: bool,
    warm: bool,
    color: string)

  /**
   * decodeStateValue(value). Every caller passes a number, on which
   * `Number(value)` is the identity; `|| 0` turns NaN into 0.
   */
  function DecodeStateValue(value: Number): Decoded
  {
    var num := OrElseZero(value);
    var cool := BitAnd(num, Int(0x08)) > 0;
    var warm := BitAnd(num, Int(0x8000)) > 0;
    Decoded(
      power := BitAnd(num, Int(0x10)) > 0,
      led := BitAnd(num, Int(0x20)) > 0,
      sleep := BitAnd(num, Int(0x80)) > 0,
      speed := BitAnd(num, Int(0x07)),
      fanTimer := UShr(Int(BitAnd(num, Int(0x0F_0000))), 16),
      fanTimerElapsedMins := Round((UShr(Int(BitAnd(num, Int(0xFF00_0000))), 24) * 4) as real),
      brightness := UShr(Int(BitAnd(num, Int(0x7F00))), 8),
      cool := cool,
      warm := warm,
      color := if cool && warm then "daylight" else if cool then "cool" else if warm then "warm" else "none")
  }

  /** Math.round of an integer is that integer. */
  lemma RoundOfInteger(n: int)
    ensures Round(n as real) == n
  {
  }

  /** `(v & mask) >>> lo` for the three multi-bit fields the dashboard shifts out. */
  lemma ShiftedFields(v: Number)
    ensures var l := Unpack(ToUint32(v));
      && UShr(Int(BitAnd(v, Int(0x0F_0000))), 16) == l.fanTimer
      && UShr(Int(BitAnd(v, Int(0x7F00))), 8) == l.brightness
      && UShr(Int(BitAnd(v, Int(0xFF00_0000))), 24) == l.elapsed
  {
    FanTimerShift(v);
    BrightnessShift(v);
    ElapsedShift(v);
  }

  lemma FanTimerShift(v: Number)
    ensures UShr(Int(BitAnd(v, Int(0x0F_0000))), 16) == (ToUint32(v) / 0x1_0000) % 0x10
  {
    Pow2Table();
    assert Mask(16, 4) == 0x0F_0000;
    ShiftedField(v, 16, 4);
  }

  lemma BrightnessShift(v: Number)
    ensures UShr(Int(BitAnd(v, Int(0x7F00))), 8) == (ToUint32(v) / 0x100) % 0x80
  {
    Pow2Table();
    assert Mask(8, 7) == 0x7F00;
    ShiftedField(v, 8, 7);
  }

  lemma ElapsedShift(v: Number)
    ensures UShr(Int(BitAnd(v, Int(0xFF00_0000))), 24) == ToUint32(v) / 0x100_0000
  {
    Pow2Table();
    assert Mask(24, 8) == 0xFF00_0000;
    ShiftedField(v, 24, 8);
    assert (ToUint32(v) / 0x100_0000) % 0x100 == ToUint32(v) / 0x100_0000;
  }

  /**
   * Every field of decodeStateValue's result is the field of the bit layout
   * of ToUint32(value); the elapsed timer is four times the unsigned top
   * byte, and cool, warm and color agree with the colour table.
   */
  lemma DecodeStateValueLayout(value: Number)
    ensures var l := Unpack(ToUint32(value));
      var r := DecodeStateValue(value);
      && r.power == l.power && r.led == l.led && r.sleep == l.sleep
      && r.speed == l.speed && r.fanTimer == l.fanTimer && r.brightness == l.brightness
      && r.fanTimerElapsedMins == 4 * l.elapsed
      && r.cool == l.cool && r.warm == l.warm
      && ColorTable(r.color, r.cool, r.warm)
  {
    var num := OrElseZero(value);
    FlagBits(num);
    ShiftedFields(num);
    RoundOfInteger(UShr(Int(BitAnd(num, Int(0xFF00_0000))), 24) * 4);
    var r := DecodeStateValue(value);
    ColorChain(r.cool, r.warm, r.color);
  }

  /** The ranges of the numeric fields; the elapsed timer is a multiple of 4 in 0..1020. */
  lemma DecodeStateValueRanges(value: Number)
    ensures var r := DecodeStateValue(value);
      && 0 <= r.speed < 8 && 0 <= r.fanTimer < 16 && 0 <= r.brightness < 128
      && r.fanTimerElapsedMins % 4 == 0 && 0 <= r.fanTimerElapsedMins <= 1020
  {
    DecodeStateValueLayout(value);
    var e := Unpack(ToUint32(value)).elapsed;
    assert e < 0x100;
    FourTimes(e);
  }

  /** The record with every flag off, every number 0 and colour "none". */
  predicate IsZero(d: Decoded)
  {
    !d.power && !d.led && !d.sleep && d.speed == 0 && d.fanTimer == 0
    && d.fanTimerElapsedMins == 0 && d.brightness == 0 && !d.cool && !d.warm && d.color == "none"
  }

  /** NaN and 0 decode to the zero record. */
  lemma DecodeZero(value: Number)
    requires value == NaN || value == Int(0)
    ensures IsZero(DecodeStateValue(value))
  {
    DecodeStateValueLayout(value);
    assert ToUint32(value) == 0;
  }

  /**
   * `(v || "").split(",")`: a missing or empty state string gives the one
   * empty part; None stands for the TypeError of a truthy value that is not
   * a string.
   */
  function StateParts(v: Value): (r: Option<seq<string>>)
    ensures r.Some? <==> !Truthy(v) || v.Str?
    ensures r.Some? ==> |r.value| >= 1
    ensures !Truthy(v) ==> r == Some([[]])
  {
    var s := Or(v, Str([]));
    if s.Str? then Some(Split(s.s, ',')) else None
  }

  /** `Number(parts[0]) || 0`. */
  function FirstField(parts: seq<string>): (n: Number)
    requires |parts| >= 1
    ensures n.Int?
  {
    OrElseZero(StringToNumber(parts[0]))
  }

  /**
   * The state string of a REST device-state reply: its own state_string,
   * else the nested raw.state_string, else "". None stands for the TypeError
   * of a null reply.
   */
  function RestStateString(json: Value): Option<Value>
  {
    match Get(json, "state_string")
    case None => None
    case Some(own) =>
      if Truthy(own) then Some(own)
      else
        var raw := Get(json, "raw").value;
        var nested := if Truthy(raw) then Get(raw, "state_string").value else raw;
        Some(Or(nested, Str([])))
  }

  /** The number the REST path decodes (src/App.jsx:125-127). */
  function RestFirstField(json: Value): Option<Number>
  {
    match RestStateString(json)
    case None => None
    case Some(s) =>
      match StateParts(s)
      case None => None
      case Some(parts) => Some(FirstField(parts))
  }

  /** The number the live path decodes for a WebSocket message m (src/App.jsx:183-184). */
  function LiveFirstField(m: Value): Option<Number>
  {
    match Get(m, "state_string")
    case None => None
    case Some(s) =>
      match StateParts(s)
      case None => None
      case Some(parts) => Some(FirstField(parts))
  }

  /** The live path as written: the decoded state of message m, when it can be computed. */
  function LiveDecoded(m: Value): Option<Decoded>
  {
    match LiveFirstField(m)
    case None => None
    case Some(n) => Some(DecodeStateValue(n))
  }

  /** A numeric property of an event, 0 when it is not an integer. */
  function IntField(v: Value): int
  {
    if v.Num? && v.n.Int? then v.n.i else 0
  }

  /**
   * The live path as evidently intended: a message with a state_string is
   * decoded as before; an event of the relay, which carries the decoded
   * fields instead, is read field by field, with cool and warm recovered
   * from its colour.
   */
  function LiveDecodedCorrected(m: Value): Option<Decoded>
  {
    if m.Obj? && Lookup(m.props, "state_string") == Undefined && Lookup(m.props, "type") == Str("fan_state") then
      var props := m.props;
      var color := if Lookup(props, "color").Str? then Lookup(props, "color").s else "none";
      Some(Decoded(
        power := Lookup(props, "power") == Bool(true),
        led := Lookup(props, "led") == Bool(true),
        sleep := Lookup(props, "sleep") == Bool(true),
        speed := IntField(Lookup(props, "speed")),
        fanTimer := IntField(Lookup(props, "fanTimer")),
        fanTimerElapsedMins := IntField(Lookup(props, "fanTimerElapsedMins")),
        brightness := IntField(Lookup(props, "brightness")),
        cool := color == "daylight" || color == "cool",
        warm := color == "daylight" || color == "warm",
        color := color))
    else LiveDecoded(m)
  }

  /** A state string with no usable first field decodes to the zero record. */
  lemma EmptyStateIsZero(s: Value)
    requires !Truthy(s) || (s.Str? && StringToNumber(Split(s.s, ',')[0]) in {NaN, Int(0)})
    ensures StateParts(s).Some?
    ensures IsZero(DecodeStateValue(FirstField(StateParts(s).value)))
  {
    var parts := StateParts(s).value;
    if !Truthy(s) {
      assert parts[0] == [];
    }
    DecodeZero(FirstField(parts));
  }

  /** A message without a state string decodes as 0 on the live path. */
  lemma LiveMissingStateIsZero(m: Value)
    requires m.Obj? && Lookup(m.props, "state_string") == Undefined
    ensures LiveFirstField(m) == Some(Int(0))
  {
    assert Get(m, "state_string") == Some(Undefined);
    assert StateParts(Undefined) == Some([[]]);
  }

  /** A reply with neither a state string nor a raw object decodes as 0 on the REST path. */
  lemma RestMissingStateIsZero(json: Value)
    requires json.Obj? && Lookup(json.props, "state_string") == Undefined
    requires Lookup(json.props, "raw") == Undefined
    ensures RestFirstField(json) == Some(Int(0))
  {
    assert Get(json, "state_string") == Some(Undefined);
    assert Get(json, "raw") == Some(Undefined);
    assert RestStateString(json) == Some(Str([]));
    assert StateParts(Str([])) == Some([[]]);
  }

  /** A state string starting with the decimal numeral of a packed state is read as that number. */
  lemma ReadsPackedNumeral(l: Layout, rest: string)
    requires InRange(l)
    ensures var s := Decimal(Pack(l)) + [','] + rest;
      && StateParts(Str(s)).Some?
      && FirstField(StateParts(Str(s)).value) == Int(Pack(l))
  {
    var digits := Decimal(Pack(l));
    var s := digits + [','] + rest;
    NoCommaInDigits(digits);
    FirstPart(digits, ',', rest);
    assert Truthy(Str(s)) && StateParts(Str(s)) == Some(Split(s, ','));
    DecimalRoundTrip(Pack(l));
  }

  /**
   * Decoding a packed state gives back every field, the elapsed timer as
   * four times the unsigned byte.
   */
  lemma DecodePackedState(l: Layout)
    requires InRange(l)
    ensures var r := DecodeStateValue(Int(Pack(l)));
      && r.power == l.power && r.led == l.led && r.sleep == l.sleep && r.speed == l.speed
      && r.fanTimer == l.fanTimer && r.brightness == l.brightness
      && r.fanTimerElapsedMins == 4 * l.elapsed && r.cool == l.cool && r.warm == l.warm
  {
    UnpackPack(l);
    DecodeStateValueLayout(Int(Pack(l)));
  }

  /** A device entry of the dashboard's list: an object. */
  type Device = seq<(string, Value)>

  /** `{ ...d, lastSeen: now, rawUdp: m }` */
  function Touch(d: Device, m: Value, now: int): Device
  {
    d + [("lastSeen", Num(Int(now))), ("rawUdp", m)]
  }

  /** A touched entry reads lastSeen and rawUdp as given, and every other key as before. */
  lemma TouchLookup(d: Device, m: Value, now: int, key: string)
    ensures Lookup(Touch(d, m, now), key) ==
      if key == "rawUdp" then m else if key == "lastSeen" then Num(Int(now)) else Lookup(d, key)
  {
    var t := Touch(d, m, now);
    assert t[..|t| - 1] == d + [("lastSeen", Num(Int(now)))];
    assert t[..|t| - 1][..|t| - 2] == d;
  }

  /**
   * The setDevices updater: `prev.map(d => d.device_id === m.device_id ?
   * touched : d)`. None stands for the TypeError of `m.device_id` on a null
   * message, thrown once the map calls its callback.
   */
  function UpdateDevices(prev: seq<Device>, m: Value, now: int): (r: Option<seq<Device>>)
    ensures r.Some? <==> prev == [] || !(m == Undefined || m == Null)
    ensures r.Some? ==> |r.value| == |prev|
  {
    if prev == [] then Some([])
    else
      match Get(m, "device_id")
      case None => None
      case Some(id) =>
        var d := prev[0];
        var head := if StrictEquals(Lookup(d, "device_id"), id) then Touch(d, m, now) else d;
        match UpdateDevices(prev[1..], m, now)
        case None => None
        case Some(tail) => Some([head] + tail)
  }

  /**
   * The update keeps the list's length and order: the entries whose
   * device_id is identical to the message's gain lastSeen and rawUdp and keep
   * every other key; all other entries are unchanged.
   */
  lemma {:induction false} UpdateDevicesPointwise(prev: seq<Device>, m: Value, now: int)
    requires !(m == Undefined || m == Null)
    ensures var r := UpdateDevices(prev, m, now).value;
      var id := Get(m, "device_id").value;
      forall i :: 0 <= i < |prev| ==>
        if StrictEquals(Lookup(prev[i], "device_id"), id) then r[i] == Touch(prev[i], m, now) else r[i] == prev[i]
  {
    if prev != [] {
      UpdateDevicesPointwise(prev[1..], m, now);
      var r := UpdateDevices(prev, m, now).value;
      assert r[1..] == UpdateDevices(prev[1..], m, now).value;
    }
  }

  /** The update never changes which device an entry is. */
  lemma UpdateKeepsDeviceIds(prev: seq<Device>, m: Value, now: int)
    requires !(m == Undefined || m == Null)
    ensures var r := UpdateDevices(prev, m, now).value;
      forall i :: 0 <= i < |prev| ==> Lookup(r[i], "device_id") == Lookup(prev[i], "device_id")
  {
    UpdateDevicesPointwise(prev, m, now);
    forall i | 0 <= i < |prev|
      ensures Lookup(UpdateDevices(prev, m, now).value[i], "device_id") == Lookup(prev[i], "device_id")
    {
      TouchLookup(prev[i], m, now, "device_id");
    }
  }

  /** The command body `sendCommand` receives from a range-checked control. */
  datatype Command =
    | SetSpeed(speed: int)
    | SetBrightness(brightness: int)

  /** uiSetSpeed: speeds outside 1..6 are refused and nothing is sent. */
  function SpeedCommand(speed: int): (r: Option<Command>)
    ensures r.Some? <==> 1 <= speed <= 6
    ensures r.Some? ==> r.value.SetSpeed? && r.value.speed == speed
  {
    if speed < 1 || speed > 6 then None else Some(SetSpeed(speed))
  }

  /** uiSetBrightness: values outside 10..100 are refused and nothing is sent. */
  function BrightnessCommand(value: int): (r: Option<Command>)
    ensures r.Some? <==> 10 <= value <= 100
    ensures r.Some? ==> r.value.SetBrightness? && r.value.brightness == value
  {
    if value < 10 || value > 100 then None else Some(SetBrightness(value))
  }

  /**
   * Every command the checks let through names a value the state layout can
   * hold: a device that reports it is decoded with that speed or brightness.
   */
  lemma SentValuesDecode(l: Layout, speed: int, brightness: int)
    requires InRange(l)
    requires SpeedCommand(speed).Some? && BrightnessCommand(brightness).Some?
    ensures InRange(l.(speed := speed, brightness := brightness))
    ensures var r := DecodeStateValue(Int(Pack(l.(speed := speed, brightness := brightness))));
      r.speed == speed && r.brightness == brightness
  {
    var l' := l.(speed := speed, brightness := brightness);
    UnpackPack(l');
    DecodeStateValueLayout(Int(Pack(l')));
  }
}
