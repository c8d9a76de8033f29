/**
 * Where the relay's decoder (src/index.js) and the dashboard's decoder
 * (src/App.jsx) agree and where they differ, first on the state integer and
 * then on the first field of a state string, and what the dashboard's live
 * path makes of the events the relay broadcasts.
 */
module Agreement {
  import opened Wrappers
  import opened JsNumber
  import opened JsText
  import opened JsValues
  import opened StateLayout
  import Relay
  import Dashboard

  /** The colour table leaves one colour for each pair of flags. */
  lemma ColorTableUnique(c1: string, c2: string, cool: bool, warm: bool)
    requires ColorTable(c1, cool, warm) && ColorTable(c2, cool, warm)
    ensures c1 == c2
  {
  }

  /**
   * For every number, the two decoders give the same power, led, sleep,
   * speed, fan timer, brightness and colour. Their elapsed timers are equal
   * exactly when bit 31 of ToUint32(value) is clear; when it is set the
   * relay's is 1024 less than the dashboard's.
   */
  lemma DecodersAgree(deviceId: Value, value: Number)
    ensures var r := Relay.DecodeValue(deviceId, value);
      var d := Dashboard.DecodeStateValue(value);
      && r.power == d.power && r.led == d.led && r.sleep == d.sleep && r.speed == d.speed
      && r.fanTimer == d.fanTimer && r.brightness == d.brightness && r.color == d.color
      && (r.fanTimerElapsedMins == d.fanTimerElapsedMins <==> ToUint32(value) < TWO_31)
      && (ToUint32(value) >= TWO_31 ==> r.fanTimerElapsedMins == d.fanTimerElapsedMins - 1024)
  {
    var r := Relay.DecodeValue(deviceId, value);
    var d := Dashboard.DecodeStateValue(value);
    Relay.DecodeValueLayout(deviceId, value);
    Dashboard.DecodeStateValueLayout(value);
    ColorTableUnique(r.color, d.color, d.cool, d.warm);
    TopBit(ToUint32(value));
  }

  /** Both decoders read a decimal numeral token as the same number. */
  lemma NumeralTokenAgrees(digits: string)
    requires digits != [] && AllDigits(digits, 10)
    ensures ParseInt(digits) == Int(DigitsValue(digits, 10))
    ensures Dashboard.FirstField([digits]) == Int(DigitsValue(digits, 10))
  {
    NumeralParsesAlike(digits);
  }

  /**
   * A numeral followed by text that cannot continue a number: the relay
   * reads the numeral, the dashboard reads 0.
   */
  lemma TrailingTextDiffers(digits: string, rest: string)
    requires digits != [] && AllDigits(digits, 10)
    requires rest != [] && !IsDigit(rest[0], 10) && !IsSpace(rest[0])
    requires rest[0] !in ".eExXoObB"
    ensures ParseInt(digits + rest) == Int(DigitsValue(digits, 10))
    ensures Dashboard.FirstField([digits + rest]) == Int(0)
  {
    ParseIntReadsPrefix(digits, rest);
    NumberRejectsTrailing(digits, rest);
  }

  /** The token "55abc": the relay decodes speed 7 with power and led on; the dashboard decodes the zero record. */
  lemma FiftyFiveAbc(deviceId: Value)
    ensures var r := Relay.DecodeValue(deviceId, ParseInt("55abc"));
      r.power && r.led && r.speed == 7
    ensures Dashboard.IsZero(Dashboard.DecodeStateValue(Dashboard.FirstField(["55abc"])))
  {
    assert "55abc" == "55" + "abc";
    assert DigitsValue("55", 10) == 55 by {
      assert "55"[..1] == "5";
    }
    TrailingTextDiffers("55", "abc");
    Relay.DecodeOf55(deviceId);
    Dashboard.DecodeZero(Int(0));
  }

  /**
   * A token with no numeral after its leading white space and optional sign
   * (the empty token, " abc", "-abc", "+") gives both decoders the zero record.
   */
  lemma NonNumericTokenIsZero(deviceId: Value, token: string)
    requires var t := TrimStart(token);
      var u := if t != [] && (t[0] == '-' || t[0] == '+') then t[1..] else t;
      u == [] || !IsDigit(u[0], 10)
    ensures Relay.DecodeValue(deviceId, ParseInt(token)) == Relay.DecodeValue(deviceId, NaN)
    ensures Dashboard.FirstField([token]) == Int(0)
    ensures var r := Relay.DecodeValue(deviceId, NaN);
      !r.power && !r.led && !r.sleep && r.speed == 0 && r.fanTimer == 0
      && r.fanTimerElapsedMins == 0 && r.brightness == 0 && r.color == "none"
    ensures Dashboard.IsZero(Dashboard.DecodeStateValue(Int(0)))
  {
    NonNumericParseInt(token);
    NonNumericNumber(token);
    Relay.DecodeValueLayout(deviceId, NaN);
    Dashboard.DecodeZero(Int(0));
  }

  /** parseInt of such a token is NaN. */
  lemma NonNumericParseInt(token: string)
    requires var t := TrimStart(token);
      var u := if t != [] && (t[0] == '-' || t[0] == '+') then t[1..] else t;
      u == [] || !IsDigit(u[0], 10)
    ensures ParseInt(token) == NaN
  {
  }

  /** Number(token) of such a token is 0 (blank) or NaN. */
  lemma NonNumericNumber(token: string)
    requires var t := TrimStart(token);
      var u := if t != [] && (t[0] == '-' || t[0] == '+') then t[1..] else t;
      u == [] || !IsDigit(u[0], 10)
    ensures StringToNumber(token) in {Int(0), NaN}
  {
    var t := TrimStart(token);
    if t != [] {
      TrimEndKeepsStart(t);
      NonNumericBody(t, Trim(token));
    }
  }

  /** A trimmed token that keeps the start of such a text has no numeral for Number. */
  lemma NonNumericBody(t: string, t2: string)
    requires t != [] && t2 != [] && |t2| <= |t|
    requires forall i :: 0 <= i < |t2| ==> t2[i] == t[i]
    requires var u := if t[0] == '-' || t[0] == '+' then t[1..] else t;
      u == [] || !IsDigit(u[0], 10)
    ensures !HasHexPrefix(t2)
    ensures var body := if t2[0] == '-' || t2[0] == '+' then t2[1..] else t2;
      body == [] || !AllDigits(body, 10)
  {
    assert t2[0] == t[0] && t2[0] != '0';
    if |t2| >= 2 {
      assert t2[1] == t[1];
    }
  }

  /**
   * The dashboard's live path, as written, finds no state_string in the
   * relay's events, so it decodes every one of them as the zero record,
   * whatever state the device reported.
   */
  lemma LiveDecodeOfRelayEvent(hex: string, ascii: string, state: Relay.DeviceState)
    ensures Dashboard.LiveFirstField(Relay.FanStateEvent(hex, ascii, state)) == Some(Int(0))
    ensures Dashboard.LiveDecoded(Relay.FanStateEvent(hex, ascii, state)).Some?
    ensures Dashboard.IsZero(Dashboard.LiveDecoded(Relay.FanStateEvent(hex, ascii, state)).value)
  {
    Relay.FanStateEventHasNoStateString(hex, ascii, state);
    Dashboard.LiveMissingStateIsZero(Relay.FanStateEvent(hex, ascii, state));
    Dashboard.DecodeZero(Int(0));
  }

  /**
   * So a datagram whose event reports the fan on, as the one with state
   * string "55,x,y" does, is shown as off.
   */
  lemma LiveDecodeLosesPower(hex: string, ascii: string, state: Relay.DeviceState)
    requires state.power
    ensures var event := Relay.FanStateEvent(hex, ascii, state);
      && Lookup(event.props, "power") == Bool(true)
      && Dashboard.LiveDecoded(event).Some? && !Dashboard.LiveDecoded(event).value.power
  {
    Relay.FanStateEventShape(hex, ascii, state);
    LiveDecodeOfRelayEvent(hex, ascii, state);
  }

  /**
   * The corrected live path shows the state the relay decoded: for the
   * event of every state integer it agrees with the dashboard's own decoder
   * on every field, the elapsed timer as the relay reports it.
   */
  lemma CorrectedLiveDecode(hex: string, ascii: string, deviceId: Value, value: Number)
    ensures var event := Relay.FanStateEvent(hex, ascii, Relay.DecodeValue(deviceId, value));
      var d := Dashboard.DecodeStateValue(value);
      && Dashboard.LiveDecodedCorrected(event)
         == Some(d.(fanTimerElapsedMins := Relay.DecodeValue(deviceId, value).fanTimerElapsedMins))
  {
    var r := Relay.DecodeValue(deviceId, value);
    var d := Dashboard.DecodeStateValue(value);
    EventReadBack(hex, ascii, r);
    DecodersAgree(deviceId, value);
    Dashboard.DecodeStateValueLayout(value);
    ColorFlags(d.color, d.cool, d.warm);
  }

  /** The corrected live path reads every field of a relay event back as the relay wrote it. */
  lemma EventReadBack(hex: string, ascii: string, r: Relay.DeviceState)
    ensures Dashboard.LiveDecodedCorrected(Relay.FanStateEvent(hex, ascii, r))
      == Some(Dashboard.Decoded(r.power, r.led, r.sleep, r.speed, r.fanTimer, r.fanTimerElapsedMins,
           r.brightness, r.color == "daylight" || r.color == "cool",
           r.color == "daylight" || r.color == "warm", r.color))
  {
    Relay.FanStateEventHasNoStateString(hex, ascii, r);
    Relay.FanStateEventShape(hex, ascii, r);
  }

  /** The colour table gives back the flags from the colour. */
  lemma ColorFlags(color: string, cool: bool, warm: bool)
    requires ColorTable(color, cool, warm)
    ensures cool == (color == "daylight" || color == "cool")
    ensures warm == (color == "daylight" || color == "warm")
  {
  }
}
