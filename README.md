# Fan-state relay and dashboard, modelled in Dafny

The system watches ceiling fans on a local network. Each fan sends a UDP
datagram. Its payload is hex text, and the hex decodes to a JSON envelope
`{"device_id": …, "state_string": "<integer>,…"}`. The first comma-separated
field of `state_string` is a 32-bit word of bit fields:

- speed: bits 0-2
- cool flag: bit 3
- power: bit 4
- led: bit 5
- sleep: bit 7
- brightness: bits 8-14
- warm flag: bit 15
- fan timer: bits 16-19
- elapsed timer: bits 24-31, in units of four minutes

Two programs decode this word:

- The relay (`src/index.js`) parses the word with `parseInt` and decodes it
  with `parseStateString`. It broadcasts one flat `fan_state` object to every
  open WebSocket client.
- The dashboard (`src/App.jsx`) decodes the word with `decodeStateValue`. It
  reads the first field with `Number(…) || 0`.

The model has these modules:

- `StateLayout` is a reference definition of the bit layout (`Unpack`/`Pack`),
  written with division and remainder. It does not use bitwise operators.
- `JsNumber` models the JavaScript semantics the decoders rely on:
  ToUint32/ToInt32, `&`, `>>>`, `| 0`, `|| 0`, Math.round.
- `JsText` models `trim`, `split`, `parseInt` and `Number(string)`.
- `JsValues` models JSON values and property access.
- `Hex` models Node's lenient hex decoding.
- `Relay` covers `parseStateString`, the UDP handler, and `broadcast` as a
  method on a `Hub` class whose clients hold outboxes.
- `Dashboard` covers `decodeStateValue`, the first-field reading, the
  device-list update and the command range checks.
- `Agreement` states where the two decoders agree and where they differ.

The main result is `Agreement.DecodersAgree`. For every number, both
decoders give the same power, led, sleep, speed, fan timer, brightness and
colour. Their elapsed timers are equal exactly when bit 31 is clear; when it
is set, the relay's value is 1024 below the dashboard's. The reason is that
the relay divides the signed value of `0xFF000000 & value`, while the
dashboard shifts with `>>>`.

State `"55,x,y"` has first field 55, which is 0x37. Its bit 3 (cool) is
clear, so both decoders give colour "none" (`Relay.ParseStateExample`).

## Model

| member | source | states |
|---|---|---|
| StateLayout.UnpackPack | src/index.js:36-44 | Unpacking a packed word recovers every field of the layout that both decoders read, and the unused bits are clear |
| StateLayout.PackUnpack | src/index.js:36-44 | A word whose unused bits are clear is determined by its fields |
| StateLayout.FlagBits | src/index.js:36-44 | `v & 0x07` is the speed field; `(v & bit) > 0` for 0x08, 0x10, 0x20, 0x80 and 0x8000 is exactly the cool, power, led, sleep and warm bit of ToUint32(v) |
| StateLayout.ColorChain | src/index.js:45-48 | The colour chain gives "daylight" iff cool and warm, "cool" iff only cool, "warm" iff only warm, "none" iff neither |
| StateLayout.TopBit | src/index.js:41 | The top byte is 0x80 or more exactly when bit 31 of the word is set |
| JsNumber.ToUint32 | src/index.js:36 | The operand of `&` is reduced modulo 2^32, is the identity on [0, 2^32), and NaN gives 0 |
| JsNumber.MaskedField | src/index.js:40 | `v & mask` for a contiguous mask below bit 31 is the same in either operand order, and is the field moved to its place, never negative |
| JsNumber.TopByte | src/index.js:41 | `0xFF000000 & v` is the top byte read as a signed byte, at bits 24-31 |
| JsNumber.ShiftedField | src/App.jsx:13-15 | `(v & mask) >>> lo` is the field itself |
| JsNumber.OrElseZero | src/App.jsx:7 | `n \|\| 0` is an integer with the same ToUint32 as n, and leaves nonzero integers alone |
| JsText.Split | src/index.js:34 | `split` gives at least one part, and no part contains the separator |
| JsText.JoinSplit | src/index.js:34 | Joining the parts with the separator gives back the string |
| JsText.FirstPart | src/index.js:34 | The first part of a split is the text before the first separator |
| JsText.TrimStart | src/index.js:19 | Exactly the leading white space is removed |
| JsText.TrimEnd | src/index.js:19 | Exactly the trailing white space is removed |
| JsText.ParseIntReadsPrefix | src/index.js:35 | parseInt reads the leading decimal numeral of a token and ignores the rest |
| JsText.NumberRejectsTrailing | src/App.jsx:127 | Number of a numeral followed by text that cannot continue a number literal is NaN |
| JsText.DecimalRoundTrip | src/index.js:35 | parseInt and Number both read back the decimal numeral of every natural number |
| JsText.ParseIntNonNumeric | src/index.js:35 | A token that starts with no digit, sign or space is NaN to parseInt |
| JsValues.Get | src/index.js:22 | Property access fails exactly on undefined and null |
| Hex.Encode | src/index.js:20 | Hex encoding gives two hex digits per byte |
| Hex.DecodeEncode | src/index.js:20 | Decoding the hex text of some bytes gives those bytes back |
| Hex.DecodeStopsAtNonHex | src/index.js:20 | Decoding stops at the first pair that is not two hex digits, and drops a final unpaired character |
| Relay.ParseStateString | src/index.js:33-35 | Gives a record exactly when `s` is a string (otherwise `s.split` throws), and its device_id is the given one |
| Relay.DecodeValueLayout | src/index.js:36-50 | Each field is the corresponding field of the layout of ToUint32(value): power, led, sleep, speed, fan timer, brightness, and the colour table. The elapsed timer is 4 × the top byte read as signed. device_id is unchanged |
| Relay.DecodeValueRanges | src/index.js:39-42 | speed is in 0..7, fan timer in 0..15, brightness in 0..127. The elapsed timer is a multiple of 4 in -512..508, negative exactly when bit 31 is set |
| Relay.SignedQuarterHoursRange | src/index.js:41 | Four times a signed byte is a multiple of 4 in -512..508, negative exactly for bytes from 0x80 |
| Relay.NonNumericIsZero | src/index.js:34-48 | A first field with no numeral gives the all-off record with colour "none" |
| Relay.DecodePackedState | src/index.js:34-48 | A state string starting with the numeral of a packed word is decoded back to its fields, whatever follows the first comma |
| Relay.ParseStateExample | src/index.js:33-60 | "55,x,y" gives power and led on, speed 7, sleep off, zeros elsewhere, colour "none" |
| Relay.HandleEnvelopeCases | src/index.js:21-31 | An envelope is broadcast iff it is JSON for an object whose state_string is a string, as the fan_state event of its decoded state. Otherwise it is dropped for invalid JSON, a null envelope, or a state_string that is not a string |
| Relay.IngestSucceedsIff | src/index.js:17-31 | A datagram is broadcast exactly when its decoded text is such JSON |
| Relay.FanStateEventShape | src/index.js:23-28 | The event has keys type, rawHex, rawAscii and then parseStateString's fields, in that order. Each key is bound to its value; type is "fan_state" |
| Relay.FanStateEventHasNoStateString | src/index.js:23-28 | The event carries no state_string |
| Relay.IngestEventShape | src/index.js:19-28 | A datagram whose decoded text is such JSON is broadcast, and the event's rawHex is the trimmed datagram text and its rawAscii is the decoded text. Its device_id is the envelope's, and its keys are those of the event |
| Relay.IngestReadsHexPayload | src/index.js:19-20 | When a datagram is the hex text of a payload, the relay's rawAscii is that payload's text |
| Relay.Client.Send | src/index.js:10 | Sending appends the text to the client's outbox |
| Relay.Hub.Broadcast | src/index.js:7-12 | Every client whose ready state was 1 receives the one serialised text once. Other clients receive nothing. Ready states and the client list are unchanged |
| Relay.Deliver | src/index.js:23-31 | On success the event is broadcast. On a dropped datagram no client receives anything |
| Relay.OnMessage | src/index.js:17-32 | The handler's outcome is Ingest's, and the clients receive exactly what Delivered describes |
| Dashboard.DecodeStateValueLayout | src/App.jsx:6-20 | Each field is the corresponding field of the layout of ToUint32(value). The elapsed timer is 4 × the unsigned top byte. cool, warm and color follow the colour table |
| Dashboard.DecodeStateValueRanges | src/App.jsx:12-15 | speed is in 0..7, fan timer in 0..15, brightness in 0..127. The elapsed timer is a multiple of 4 in 0..1020 |
| Dashboard.DecodeZero | src/App.jsx:7 | NaN and 0 decode to the zero record |
| Dashboard.StateParts | src/App.jsx:126 | `(v \|\| "").split(",")` succeeds iff v is falsy or a string. A falsy v gives the one empty part |
| Dashboard.EmptyStateIsZero | src/App.jsx:125-127 | An empty, missing or non-numeric first field decodes to the zero record |
| Dashboard.LiveMissingStateIsZero | src/App.jsx:183-184 | A live message without state_string is read as 0 |
| Dashboard.RestMissingStateIsZero | src/App.jsx:125-127 | A reply with neither state_string nor raw is read as 0 |
| Dashboard.ReadsPackedNumeral | src/App.jsx:126-127 | A state string starting with the numeral of a packed word is read as that word |
| Dashboard.DecodePackedState | src/App.jsx:6-20 | Decoding a packed word gives back its fields, with the elapsed timer as 4 × the unsigned byte |
| Dashboard.TouchLookup | src/App.jsx:190 | A touched entry reads lastSeen and rawUdp as given, and every other key as before |
| Dashboard.UpdateDevices | src/App.jsx:188-192 | The update succeeds unless the message is null while the list is nonempty, and keeps the list's length |
| Dashboard.UpdateDevicesPointwise | src/App.jsx:188-192 | Entries whose device_id is identical to the message's are touched; all others are unchanged, in order |
| Dashboard.UpdateKeepsDeviceIds | src/App.jsx:188-192 | No entry's device_id changes |
| Dashboard.SpeedCommand | src/App.jsx:216-219 | A speed command is sent iff the speed is in 1..6, and it carries that speed |
| Dashboard.BrightnessCommand | src/App.jsx:225-228 | A brightness command is sent iff the value is in 10..100, and it carries that value |
| Dashboard.SentValuesDecode | src/App.jsx:216-228 | Every value the checks let through fits the layout, and a device reporting it is decoded with that speed and brightness |
| Agreement.DecodersAgree | src/App.jsx:9-18 | The two decoders agree on power, led, sleep, speed, fan timer, brightness and colour for every number. The elapsed timers are equal iff bit 31 is clear; otherwise the relay's is 1024 less |
| Agreement.NumeralTokenAgrees | src/App.jsx:127 | Both decoders read a decimal numeral token as the same number |
| Agreement.TrailingTextDiffers | src/App.jsx:127 | A numeral followed by non-numeric text is read as the numeral by the relay and as 0 by the dashboard |
| Agreement.FiftyFiveAbc | src/index.js:35 | "55abc" gives the relay speed 7 with power and led on, and gives the dashboard the zero record |
| Agreement.NonNumericTokenIsZero | src/App.jsx:127 | A token with no digit after its leading white space and optional sign (the empty token included) gives both decoders their all-off record |
| Agreement.LiveDecodeOfRelayEvent | src/App.jsx:183-185 | The dashboard's live path, as written, decodes every relay event as the zero record |
| Agreement.LiveDecodeLosesPower | src/App.jsx:183-185 | An event that reports the fan on is shown as off by the live path as written |
| Agreement.EventReadBack | src/App.jsx:183-185 | The corrected live path reads every field of a relay event back as the relay wrote it, with cool and warm recovered from the colour |
| Agreement.CorrectedLiveDecode | src/App.jsx:183-185 | The corrected live path shows, for the event of every state word, the dashboard decoder's fields, with the elapsed timer as the relay reported it |

## Left out

- Sockets and I/O are not modelled:
  - socket creation and binding (`dgram`, `WebSocketServer`);
  - the `listening` log;
  - the `ws` library's own accepting and removing of clients.

  `wss.clients` is a given sequence of distinct clients (a set), and `send` appends to an outbox.
- Logging (`console.log` in the catch, `console.warn`) is not modelled; a dropped datagram is the `Dropped` reason.
- The runtime's UTF-8 decoder, `JSON.parse` and `JSON.stringify` are parameters of the model (`Relay.Codec`). Their internals are not modelled.
- `Number` values are NaN or mathematical integers. Fractions, exponents, Infinity, -0 and values at or above 2^53 are not modelled.
- `Number(string)` accepts only an empty or blank string, a signed decimal integer, or a 0x hexadecimal integer. Other numeric literal forms (fractions, exponents, Infinity, 0b and 0o) are treated as NaN.
- Property access on strings, numbers, booleans and arrays gives undefined; inherited properties are not modelled. Objects compare by identity, and two separately parsed objects are never identical.
- An object is a list of bindings in which a later binding of a key overrides an earlier one. Object spread of an entry that already has `lastSeen` or `rawUdp` is therefore represented with the key bound twice, not rewritten in place.
- `Date.now()` is the parameter `now` of `Dashboard.UpdateDevices`.
- The React component is not modelled:
  - rendering, hooks and `useState` setters;
  - the `selectedDevice` check before the live decode;
  - `setDeviceState`;
  - `alert`.
- The REST client is not modelled: `getAccessToken`, `fetchDevices`, `sendCommand`, the fetches, tokens and localStorage are network and browser I/O. The reply body is the parameter of `Dashboard.RestFirstField`.
- Concurrency between the event loop and client connect/disconnect during a broadcast is not modelled.
- Dashboard.SpeedCommand: takes an integer. The source compares whatever it is given, so a NaN would pass both comparisons. Its only caller passes the button values 1..6.
- Dashboard.BrightnessCommand: takes an integer for the same reason. Its only caller passes 20, 40, 60, 80 and 100.
- Dashboard.UpdateDevices: device entries are objects. A non-object entry is not modelled.

## Findings

| source | as written | input that shows it | evidently intended | confidence | as-written member | corrected member |
|---|---|---|---|---|---|---|
| src/App.jsx:183-185 | The live path decodes `m.state_string`, but the relay's fan_state events carry the decoded fields and no state_string. Every live event is therefore decoded from "" as 0 | The event of datagram `{"device_id":"dev1","state_string":"55,x,y"}` has power true, and the dashboard shows power false, speed 0 and colour "none" | Show the state the relay decoded by reading the event's own fields | not executed | Agreement.LiveDecodeOfRelayEvent | Dashboard.LiveDecodedCorrected |
