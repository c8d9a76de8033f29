/**
 * The relay (src/index.js): a UDP datagram carries hex text; the hex decodes
 * to JSON text whose state_string's first comma-separated field is the
 * device's state integer; the decoded state is broadcast as one flat
 * "fan_state" object to every open WebSocket client.
 */
module Relay {
  import opened Wrappers
  import opened JsNumber
  import opened JsText
  import opened JsValues
  import opened StateLayout
  import Hex

  /** The object parseStateString returns. */
  datatype DeviceState = DeviceState(
    deviceId: Value,
    power: bool,
    led: bool,
    sleep: bool,
    speed: int,
    fanTimer: int,
    fanTimerElapsedMins: int,
    brightness: int,
    color: string)
  {
    /** Its properties in declaration order, as object spread copies them. */
    function Entries(): seq<(string, Value)>
    {
      [("device_id", deviceId), ("power", Bool(power)), ("led", Bool(led)), ("sleep", Bool(sleep)),
       ("speed", Num(Int(speed))), ("fanTimer", Num(Int(fanTimer))),
       ("fanTimerElapsedMins", Num(Int(fanTimerElapsedMins))),
       ("brightness", Num(Int(brightness))), ("color", Str(color))]
    }
  }

  /** The decoding steps of parseStateString, applied to the parsed state integer. */
  function DecodeValue(deviceId: Value, value: Number): DeviceState
  {
    var power := BitAnd(value, Int(0x10)) > 0;
    var led := BitAnd(value, Int(0x20)) > 0;
    var sleep := BitAnd(value, Int(0x80)) > 0;
    var speed := BitAnd(value, Int(0x07));
    var fanTimer := BitOrZero(BitAnd(Int(0x0F_0000), value) as real / 65536.0);
    var fanTimerElapsedMins := BitOrZero((BitAnd(Int(0xFF00_0000), value) * 4) as real / 16777216.0);
    var brightness := BitOrZero(BitAnd(Int(0x7F00), value) as real / 256.0);
    var cool := BitAnd(value, Int(0x08)) > 0;
    var warm := BitAnd(value, Int(0x8000)) > 0;
    var color :=
      if cool && warm then "daylight"
      else if cool then "cool"
      else if warm then "warm"
      else "none";
    DeviceState(deviceId, power, led, sleep, speed, fanTimer, fanTimerElapsedMins, brightness, color)
  }

  /**
   * parseStateString(deviceId, s): only the text before the first comma is
   * read, with parseInt. None stands for the TypeError of `s.split` when s
   * is not a string (absent, null, a number, ...).
   */
  function ParseStateString(deviceId: Value, s: Value): (r: Option<DeviceState>)
    ensures r.Some? <==> s.Str?
    ensures s.Str? ==> r.value.deviceId == deviceId
  {
    match s
    case Str(text) => Some(DecodeValue(deviceId, ParseInt(Split(text, ',')[0])))
    case _ => None
  }

  /** The elapsed-timer byte as parseStateString reports it: read as a signed byte, times four. */
  function SignedQuarterHours(elapsed: nat): int
  {
    4 * (if elapsed < 0x80 then elapsed else elapsed - 0x100)
  }

  lemma ExactQuotient(f: int, d: int)
    requires d > 0
    ensures ((f * d) as real) / (d as real) == f as real
  {
  }

  lemma BitOrZeroOfInteger(n: int)
    requires -TWO_31 <= n < TWO_31
    ensures BitOrZero(n as real) == n
  {
    assert Trunc(n as real) == n;
  }

  /** `((0x0F0000 & v) / 65536) | 0` is the fan timer field. */
  lemma FanTimerBits(v: Number)
    ensures BitOrZero(BitAnd(Int(0x0F_0000), v) as real / 65536.0) == (ToUint32(v) / 0x1_0000) % 0x10
  {
    var f := (ToUint32(v) / 0x1_0000) % 0x10;
    assert BitAnd(Int(0x0F_0000), v) == f * 0x1_0000 by {
      Pow2Table();
      MaskedField(v, 16, 4);
      assert Mask(16, 4) == 0x0F_0000;
    }
    ExactQuotient(f, 65536);
    BitOrZeroOfInteger(f);
  }

  /** `((0x7F00 & v) / 256) | 0` is the brightness field. */
  lemma BrightnessBits(v: Number)
    ensures BitOrZero(BitAnd(Int(0x7F00), v) as real / 256.0) == (ToUint32(v) / 0x100) % 0x80
  {
    var f := (ToUint32(v) / 0x100) % 0x80;
    assert BitAnd(Int(0x7F00), v) == f * 0x100 by {
      Pow2Table();
      MaskedField(v, 8, 7);
      assert Mask(8, 7) == 0x7F00;
    }
    ExactQuotient(f, 256);
    BitOrZeroOfInteger(f);
  }

  /** `((0xFF000000 & v) * 4 / 16777216) | 0` is four times the top byte read as signed. */
  lemma ElapsedBits(v: Number)
    ensures BitOrZero((BitAnd(Int(0xFF00_0000), v) * 4) as real / 16777216.0)
            == SignedQuarterHours(ToUint32(v) / 0x100_0000)
  {
    TopByte(v);
    var e := ToUint32(v) / 0x100_0000;
    var s := if e < 0x80 then e else e - 0x100;
    assert BitAnd(Int(0xFF00_0000), v) * 4 == (4 * s) * 16777216;
    ExactQuotient(4 * s, 16777216);
    BitOrZeroOfInteger(4 * s);
  }

  /**
   * Every field of parseStateString's result is the field of the bit layout
   * of ToUint32(value), except the elapsed timer, whose top byte is read as
   * signed; the device id is passed through.
   */
  lemma DecodeValueLayout(deviceId: Value, value: Number)
    ensures var l := Unpack(ToUint32(value));
      var r := DecodeValue(deviceId, value);
      && r.deviceId == deviceId
      && r.power == l.power && r.led == l.led && r.sleep == l.sleep
      && r.speed == l.speed && r.fanTimer == l.fanTimer && r.brightness == l.brightness
      && r.fanTimerElapsedMins == SignedQuarterHours(l.elapsed)
      && ColorTable(r.color, l.cool, l.warm)
  {
    var l := Unpack(ToUint32(value));
    FlagBits(value);
    FanTimerBits(value);
    BrightnessBits(value);
    ElapsedBits(value);
    var cool := BitAnd(value, Int(0x08)) > 0;
    var warm := BitAnd(value, Int(0x8000)) > 0;
    ColorChain(cool, warm, DecodeValue(deviceId, value).color);
  }
  /**
   * The ranges the bit layout gives each numeric field; the elapsed timer is
   * a multiple of 4 between -512 and 508, negative exactly when bit 31 is set.
   */
  lemma DecodeValueRanges(deviceId: Value, value: Number)
    ensures var r := DecodeValue(deviceId, value);
      && 0 <= r.speed < 8 && 0 <= r.fanTimer < 16 && 0 <= r.brightness < 128
      && r.fanTimerElapsedMins % 4 == 0 && -512 <= r.fanTimerElapsedMins <= 508
      && (r.fanTimerElapsedMins < 0 <==> ToUint32(value) >= TWO_31)
  {
    var u := ToUint32(value);
    DecodeValueLayout(deviceId, value);
    TopBit(u);
    SignedQuarterHoursRange(Unpack(u).elapsed);
  }

  /** Four times a signed byte: a multiple of 4 in -512..508, negative for bytes from 0x80. */
  lemma SignedQuarterHoursRange(e: nat)
    requires e < 0x100
    ensures var q := SignedQuarterHours(e);
      && q % 4 == 0 && -512 <= q <= 508 && (q < 0 <==> e >= 0x80)
  {
    FourTimes(if e < 0x80 then e else e - 0x100);
  }

  /** A state string whose first field has no leading numeral decodes to the all-off record. */
  lemma NonNumericIsZero(deviceId: Value, text: string)
    requires ParseInt(Split(text, ',')[0]) == NaN
    ensures ParseStateString(deviceId, Str(text)) == Some(DecodeValue(deviceId, Int(0)))
    ensures var r := DecodeValue(deviceId, Int(0));
      && !r.power && !r.led && !r.sleep && r.speed == 0 && r.fanTimer == 0
      && r.fanTimerElapsedMins == 0 && r.brightness == 0 && r.color == "none"
  {
    DecodeValueLayout(deviceId, NaN);
    DecodeValueLayout(deviceId, Int(0));
  }

  /**
   * A device that writes the decimal numeral of its packed state, followed
   * by any further comma-separated fields, has every field read back, the
   * elapsed timer as a signed byte.
   */
  lemma DecodePackedState(deviceId: Value, l: Layout, rest: string)
    requires InRange(l)
    ensures var r := ParseStateString(deviceId, Str(Decimal(Pack(l)) + [','] + rest)).value;
      && r.power == l.power && r.led == l.led && r.sleep == l.sleep && r.speed == l.speed
      && r.fanTimer == l.fanTimer && r.brightness == l.brightness
      && r.fanTimerElapsedMins == SignedQuarterHours(l.elapsed)
      && ColorTable(r.color, l.cool, l.warm)
  {
    var digits := Decimal(Pack(l));
    NoCommaInDigits(digits);
    FirstPart(digits, ',', rest);
    DecimalRoundTrip(Pack(l));
    UnpackPack(l);
    DecodeValueLayout(deviceId, Int(Pack(l)));
  }

  /**
   * The state string "55,x,y": 55 is 0x37, so speed 7 with power and led
   * on; bit 3 is clear, so the colour is "none".
   */
  lemma ParseStateExample()
    ensures ParseStateString(Str("dev1"), Str("55,x,y"))
            == Some(DeviceState(Str("dev1"), true, true, false, 7, 0, 0, 0, "none"))
  {
    FirstTokenOfExample();
    DecodeOf55(Str("dev1"));
  }

  lemma FirstTokenOfExample()
    ensures ParseInt(Split("55,x,y", ',')[0]) == Int(55)
  {
    assert "55,x,y" == "55" + [','] + "x,y";
    FirstPart("55", ',', "x,y");
    assert DigitsValue("5", 10) == 5 by {
      assert "5"[..0] == [];
    }
    assert DigitsValue("55", 10) == 55 by {
      assert "55"[..1] == "5";
    }
    ParseIntReadsPrefix("55", []);
    assert "55" + [] == "55";
  }

  lemma DecodeOf55(deviceId: Value)
    ensures DecodeValue(deviceId, Int(55)) == DeviceState(deviceId, true, true, false, 7, 0, 0, 0, "none")
  {
    var r := DecodeValue(deviceId, Int(55));
    DecodeValueLayout(deviceId, Int(55));
    assert ToUint32(Int(55)) == 55;
    FieldsOf55();
    assert r.power && r.led && !r.sleep && r.speed == 7;
    assert r.fanTimer == 0 && r.fanTimerElapsedMins == 0 && r.brightness == 0;
    assert r.color == "none";
  }

  lemma FieldsOf55()
    ensures Unpack(55) == Layout(7, false, true, true, false, 0, false, 0, 0)
  {
    var l := Layout(7, false, true, true, false, 0, false, 0, 0);
    assert Pack(l) == 55;
    UnpackPack(l);
  }

  /** How the datagram decoder, UTF-8 decoder and JSON parser of the runtime behave. */
  datatype Codec = Codec(
    utf8: seq<Hex.byte> -> string,
    parseJson: string -> Result<Value, string>,
    stringify: Value -> string)

  /** Why a datagram was dropped: the exception the handler caught. */
  datatype Dropped =
    | InvalidJson(message: string)
    | NullEnvelope
    | StateNotString

  /** The broadcast object: tag, raw texts, then the decoded fields spread in. */
  function FanStateEvent(hex: string, ascii: string, parsed: DeviceState): Value
  {
    Obj([("type", Str("fan_state")), ("rawHex", Str(hex)), ("rawAscii", Str(ascii))] + parsed.Entries())
  }

  /** The hex text of a datagram. */
  function HexText(msg: seq<Hex.byte>, codec: Codec): string
  {
    Trim(codec.utf8(msg))
  }

  /** The JSON text the hex text carries. */
  function AsciiText(msg: seq<Hex.byte>, codec: Codec): string
  {
    codec.utf8(Hex.Decode(HexText(msg, codec)))
  }

  /**
   * What the handler does once JSON.parse has run on the decoded text:
   * Success holds the object to broadcast, Failure the exception that drops
   * the datagram.
   */
  function HandleEnvelope(hex: string, ascii: string, parsed: Result<Value, string>): Result<Value, Dropped>
  {
    match parsed
    case Failure(e) => Failure(InvalidJson(e))
    case Success(json) =>
      match Get(json, "device_id")
      case None => Failure(NullEnvelope)
      case Some(deviceId) =>
        match Get(json, "state_string")
        case None => Failure(NullEnvelope)
        case Some(s) =>
          match ParseStateString(deviceId, s)
          case None => Failure(StateNotString)
          case Some(state) => Success(FanStateEvent(hex, ascii, state))
  }

  /** The body of the UDP message handler up to the broadcast. */
  function Ingest(msg: seq<Hex.byte>, codec: Codec): Result<Value, Dropped>
  {
    HandleEnvelope(HexText(msg, codec), AsciiText(msg, codec), codec.parseJson(AsciiText(msg, codec)))
  }

  /** JSON for an object whose state_string is a string. */
  predicate GoodJson(parsed: Result<Value, string>)
  {
    parsed.Success? && parsed.value.Obj? && Lookup(parsed.value.props, "state_string").Str?
  }

  /** The decoded state of a good envelope. */
  function EnvelopeState(json: Value): DeviceState
    requires json.Obj? && Lookup(json.props, "state_string").Str?
  {
    DecodeValue(Lookup(json.props, "device_id"), ParseInt(Split(Lookup(json.props, "state_string").s, ',')[0]))
  }

  /**
   * Exactly the good envelopes are broadcast, as the fan_state event of
   * their decoded state; the others are dropped for the first exception the
   * handler meets: invalid JSON, then a null envelope, then a state_string
   * that is not a string.
   */
  lemma HandleEnvelopeCases(hex: string, ascii: string, parsed: Result<Value, string>)
    ensures HandleEnvelope(hex, ascii, parsed).Success? <==> GoodJson(parsed)
    ensures GoodJson(parsed) ==>
      HandleEnvelope(hex, ascii, parsed) == Success(FanStateEvent(hex, ascii, EnvelopeState(parsed.value)))
    ensures parsed.Failure? ==> HandleEnvelope(hex, ascii, parsed) == Failure(InvalidJson(parsed.error))
    ensures parsed == Success(Null) ==> HandleEnvelope(hex, ascii, parsed) == Failure(NullEnvelope)
    ensures parsed.Success? && parsed.value != Null && parsed.value != Undefined && !GoodJson(parsed) ==>
      HandleEnvelope(hex, ascii, parsed) == Failure(StateNotString)
  {
    if parsed.Success? && parsed.value.Obj? {
      var json := parsed.value;
      assert Get(json, "device_id") == Some(Lookup(json.props, "device_id"));
      assert Get(json, "state_string") == Some(Lookup(json.props, "state_string"));
    }
  }

  /** A datagram is broadcast exactly when its decoded text is good JSON. */
  lemma IngestSucceedsIff(msg: seq<Hex.byte>, codec: Codec)
    ensures Ingest(msg, codec).Success? <==> GoodJson(codec.parseJson(AsciiText(msg, codec)))
  {
    HandleEnvelopeCases(HexText(msg, codec), AsciiText(msg, codec), codec.parseJson(AsciiText(msg, codec)));
  }

  const EventKeys: seq<string> :=
    ["type", "rawHex", "rawAscii", "device_id", "power", "led", "sleep", "speed",
     "fanTimer", "fanTimerElapsedMins", "brightness", "color"]

  /**
   * The object broadcast for a decoded state has exactly the keys of
   * EventKeys, in that order, each bound once to its value.
   */
  lemma FanStateEventShape(hex: string, ascii: string, state: DeviceState)
    ensures var props := FanStateEvent(hex, ascii, state).props;
      && Keys(props) == EventKeys
      && Lookup(props, "type") == Str("fan_state")
      && Lookup(props, "rawHex") == Str(hex)
      && Lookup(props, "rawAscii") == Str(ascii)
      && Lookup(props, "device_id") == state.deviceId
      && Lookup(props, "power") == Bool(state.power)
      && Lookup(props, "led") == Bool(state.led)
      && Lookup(props, "sleep") == Bool(state.sleep)
      && Lookup(props, "speed") == Num(Int(state.speed))
      && Lookup(props, "fanTimer") == Num(Int(state.fanTimer))
      && Lookup(props, "fanTimerElapsedMins") == Num(Int(state.fanTimerElapsedMins))
      && Lookup(props, "brightness") == Num(Int(state.brightness))
      && Lookup(props, "color") == Str(state.color)
  {
    var props := FanStateEvent(hex, ascii, state).props;
    EventKeysInOrder(hex, ascii, state);
    KeysAt(props);
    assert Keys(props) == EventKeys;
    EventHeaderLookups(hex, ascii, state);
    EventFieldLookups(hex, ascii, state);
  }

  lemma EventHeaderLookups(hex: string, ascii: string, state: DeviceState)
    ensures var props := FanStateEvent(hex, ascii, state).props;
      && Lookup(props, "type") == Str("fan_state")
      && Lookup(props, "rawHex") == Str(hex)
      && Lookup(props, "rawAscii") == Str(ascii)
      && Lookup(props, "device_id") == state.deviceId
  {
    var props := FanStateEvent(hex, ascii, state).props;
    EventKeysInOrder(hex, ascii, state);
    EventKeysDistinct();
    LookupAt(props, 0);
    LookupAt(props, 1);
    LookupAt(props, 2);
    LookupAt(props, 3);
  }

  lemma EventFieldLookups(hex: string, ascii: string, state: DeviceState)
    ensures var props := FanStateEvent(hex, ascii, state).props;
      && Lookup(props, "power") == Bool(state.power)
      && Lookup(props, "led") == Bool(state.led)
      && Lookup(props, "sleep") == Bool(state.sleep)
      && Lookup(props, "speed") == Num(Int(state.speed))
      && Lookup(props, "fanTimer") == Num(Int(state.fanTimer))
      && Lookup(props, "fanTimerElapsedMins") == Num(Int(state.fanTimerElapsedMins))
      && Lookup(props, "brightness") == Num(Int(state.brightness))
      && Lookup(props, "color") == Str(state.color)
  {
    EventFlagLookups(hex, ascii, state);
    EventNumberLookups(hex, ascii, state);
  }

  lemma EventFlagLookups(hex: string, ascii: string, state: DeviceState)
    ensures var props := FanStateEvent(hex, ascii, state).props;
      && Lookup(props, "power") == Bool(state.power)
      && Lookup(props, "led") == Bool(state.led)
      && Lookup(props, "sleep") == Bool(state.sleep)
      && Lookup(props, "speed") == Num(Int(state.speed))
  {
    var props := FanStateEvent(hex, ascii, state).props;
    EventKeysInOrder(hex, ascii, state);
    EventKeysDistinct();
    LookupAt(props, 4);
    LookupAt(props, 5);
    LookupAt(props, 6);
    LookupAt(props, 7);
  }

  lemma EventNumberLookups(hex: string, ascii: string, state: DeviceState)
    ensures var props := FanStateEvent(hex, ascii, state).props;
      && Lookup(props, "fanTimer") == Num(Int(state.fanTimer))
      && Lookup(props, "fanTimerElapsedMins") == Num(Int(state.fanTimerElapsedMins))
      && Lookup(props, "brightness") == Num(Int(state.brightness))
      && Lookup(props, "color") == Str(state.color)
  {
    var props := FanStateEvent(hex, ascii, state).props;
    EventKeysInOrder(hex, ascii, state);
    EventKeysDistinct();
    LookupAt(props, 8);
    LookupAt(props, 9);
    LookupAt(props, 10);
    LookupAt(props, 11);
  }

  lemma EventKeysInOrder(hex: string, ascii: string, state: DeviceState)
    ensures var props := FanStateEvent(hex, ascii, state).props;
      |props| == |EventKeys| && forall i :: 0 <= i < |props| ==> props[i].0 == EventKeys[i]
  {
  }

  lemma EventKeysDistinct()
    ensures forall i, j :: 0 <= i < j < |EventKeys| ==> EventKeys[i] != EventKeys[j]
  {
  }

  /** The broadcast object carries the decoded fields, not the state string they came from. */
  lemma FanStateEventHasNoStateString(hex: string, ascii: string, state: DeviceState)
    ensures Lookup(FanStateEvent(hex, ascii, state).props, "state_string") == Undefined
  {
    var props := FanStateEvent(hex, ascii, state).props;
    assert forall i :: 0 <= i < |props| ==> props[i].0 == EventKeys[i];
    LookupAbsent(props, "state_string");
  }

  /**
   * A broadcast datagram's event has the keys of EventKeys in order, the
   * trimmed datagram text as rawHex, the decoded text as rawAscii, and the
   * envelope's device_id.
   */
  lemma IngestEventShape(msg: seq<Hex.byte>, codec: Codec)
    requires GoodJson(codec.parseJson(AsciiText(msg, codec)))
    ensures Ingest(msg, codec).Success?
    ensures var event := Ingest(msg, codec).value;
      var json := codec.parseJson(AsciiText(msg, codec)).value;
      && event.Obj? && Keys(event.props) == EventKeys
      && Lookup(event.props, "rawHex") == Str(HexText(msg, codec))
      && Lookup(event.props, "rawAscii") == Str(AsciiText(msg, codec))
      && Lookup(event.props, "device_id") == Lookup(json.props, "device_id")
  {
    var parsed := codec.parseJson(AsciiText(msg, codec));
    HandleEnvelopeCases(HexText(msg, codec), AsciiText(msg, codec), parsed);
    FanStateEventShape(HexText(msg, codec), AsciiText(msg, codec), EnvelopeState(parsed.value));
  }

  /** When the sender hex-encodes its JSON text, the relay reads that text back. */
  lemma IngestReadsHexPayload(msg: seq<Hex.byte>, codec: Codec, payload: seq<Hex.byte>)
    requires codec.utf8(msg) == Hex.Encode(payload)
    ensures HexText(msg, codec) == Hex.Encode(payload)
    ensures AsciiText(msg, codec) == codec.utf8(payload)
  {
    var s := Hex.Encode(payload);
    if s != [] {
      assert IsDigit(s[0], 16) && IsDigit(s[|s| - 1], 16);
    }
    TrimUnchanged(s);
    Hex.DecodeEncode(payload);
  }

  /** A WebSocket client: its ready state and what has been sent to it. */
  class Client {
    var readyState: int
    var outbox: seq<string>

    constructor (readyState: int)
      ensures this.readyState == readyState && outbox == []
    {
      this.readyState := readyState;
      outbox := [];
    }

    /** `c.send(data)`: the text is queued for the client. */
    method Send(data: string)
      modifies this
      ensures outbox == old(outbox) + [data]
      ensures readyState == old(readyState)
    {
      outbox := outbox + [data];
    }
  }

  /** WebSocket.OPEN */
  const OPEN: int := 1

  /** The WebSocket server's set of clients, in iteration order. */
  class Hub {
    var clients: seq<Client>

    /** A set holds each client once. */
    ghost predicate Valid()
      reads this
    {
      forall i, j :: 0 <= i < j < |clients| ==> clients[i] != clients[j]
    }

    constructor (clients: seq<Client>)
      requires forall i, j :: 0 <= i < j < |clients| ==> clients[i] != clients[j]
      ensures Valid() && this.clients == clients
    {
      this.clients := clients;
    }

    /**
     * broadcast(obj): serialise once, then send that same text to each open
     * client; other clients get nothing and stay in the set.
     */
    method Broadcast(obj: Value, stringify: Value -> string)
      requires Valid()
      modifies clients
      ensures forall i :: 0 <= i < |clients| ==>
        clients[i].outbox == old(clients[i].outbox) + (if old(clients[i].readyState) == OPEN then [stringify(obj)] else [])
      ensures forall i :: 0 <= i < |clients| ==> clients[i].readyState == old(clients[i].readyState)
    {
      var data := stringify(obj);
      for n := 0 to |clients|
        invariant forall i :: 0 <= i < |clients| ==> clients[i].readyState == old(clients[i].readyState)
        invariant forall i :: 0 <= i < n ==>
          clients[i].outbox == old(clients[i].outbox) + (if old(clients[i].readyState) == OPEN then [data] else [])
        invariant forall i :: n <= i < |clients| ==> clients[i].outbox == old(clients[i].outbox)
      {
        var c := clients[n];
        if c.readyState == OPEN {
          c.Send(data);
        }
      }
    }
  }

  /**
   * What the end of the UDP message handler leaves behind: on success every
   * client that was open has received the serialised event once, and no
   * other client anything; on a dropped datagram (the handler only logs it)
   * no client has received anything. The set of clients and their ready
   * states are unchanged.
   */
  twostate predicate Delivered(hub: Hub, outcome: Result<Value, Dropped>, stringify: Value -> string)
    reads hub, hub.clients
  {
    && hub.clients == old(hub.clients)
    && forall i :: 0 <= i < |hub.clients| ==>
      && hub.clients[i].readyState == old(hub.clients[i].readyState)
      && hub.clients[i].outbox == old(hub.clients[i].outbox)
           + (if outcome.Success? && old(hub.clients[i].readyState) == OPEN then [stringify(outcome.value)] else [])
  }

  /** The end of the UDP message handler: a successful outcome is broadcast. */
  method Deliver(hub: Hub, outcome: Result<Value, Dropped>, stringify: Value -> string)
    requires hub.Valid()
    modifies hub.clients
    ensures Delivered(hub, outcome, stringify)
  {
    if outcome.Success? {
      hub.Broadcast(outcome.value, stringify);
    }
  }

  /**
   * The UDP message handler: the datagram is ingested and the outcome
   * delivered; the result says which happened.
   */
  method OnMessage(hub: Hub, msg: seq<Hex.byte>, codec: Codec) returns (outcome: Result<Value, Dropped>)
    requires hub.Valid()
    modifies hub.clients
    ensures outcome == Ingest(msg, codec)
    ensures Delivered(hub, outcome, codec.stringify)
  {
    outcome := Ingest(msg, codec);
    Deliver(hub, outcome, codec.stringify);
  }
}
