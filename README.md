# Neewer GL25C light control, modelled in Dafny

This project models the Home Assistant integration for the Neewer GL25C LED
panel. The integration drives the panel over UDP (port 5052) with short binary
datagrams, which the code writes as hex text. The model covers four parts:

- the wire format (`Hex`, `Frames`): `bytes.hex` / `bytes.fromhex`, the XOR
  checksum, the seven-byte brightness/temperature frame
  `80 05 03 02 b t c`, and the handshake
  `80 02 10 00 00 0d <host octets> 2e`, built by splitting the host on `.`
  and formatting each `int(part)` as `{:02x}`;
- the integration's constants (`Const`): the fixed power-on, power-off and
  power-query frames, the default port, and the kelvin and brightness ranges;
- the asynchronous UDP session `NeewerUDPClient` (`UdpClient`), a class
  whose fields are the socket, the heartbeat task handle and the connected
  flag, with connect, disconnect, send, heartbeat start/stop/step and the
  brightness/temperature command;
- the light entity `NeewerGL25CLight` (`Light`), whose assumed state is on/off,
  brightness (0..255), colour temperature (mireds) and availability. Also part
  of it: the conversions to the device's 0..100 scales, the unique id, and
  the add/remove/turn-on/turn-off handlers;
- the standalone test tool `NeewerTestClient` (`TestLight`): a blocking client
  with a heartbeat thread flag, its test commands, and the range guards of
  its interactive menu.

The transport is abstract. Whether a socket can be created and whether a
datagram is accepted are boolean inputs of the methods. Every datagram handed
to the transport is appended to a ghost `wire`. Open sockets and cancelled heartbeat tasks are
ghost sets. This lets contracts say exactly what was sent, what is kept open
and what is left running.

Bytes are `Byte = x: int | 0 <= x < 256`. XOR is defined arithmetically, bit by
bit, with its algebra (zero, self-inverse, associativity, bounds) proved as
lemmas. Python's `int(x / y)` on floats is modelled as integer division
truncated toward zero (`TruncDiv`). `//` on the positive mireds is Dafny's `/`.

Where the behaviour of the code differs from what its design describes, the
model follows the code:

- Brightness and temperature levels are truncated (`int(...)`), not rounded.
- A failed `connect` keeps the socket it created: the socket is assigned
  before anything can fail and is not closed on failure.
- `connect` has no guard against an open session. A second successful
  connect replaces the heartbeat handle without cancelling the old task,
  which keeps running (`ReconnectOrphansHeartbeat`).
- `bytes([...])` raises on values outside 0..255 rather than wrapping them, so
  the brightness/temperature senders require bytes.
- The checksum of the `(100, 50)` frame is `0xd2`, giving
  `800503026432d2`.
- The entity's coldest colour temperature, 143 mireds, is 6993 K and so
  device level 99. Level 100 is never sent from the entity's mired range.
- The power frames end in the byte sum of the preceding bytes modulo 256,
  not their XOR, so they do not follow `calculate_checksum`.

## Model

| member | source | states |
|---|---|---|
| Hex.ToHex | custom_components/neewer_gl25c/udp_client.py:120 | `bytes.hex` yields two characters per byte |
| Hex.FromHex | custom_components/neewer_gl25c/udp_client.py:77 | `bytes.fromhex`: a successful decode has half as many bytes as the text has characters, and odd-length text always fails (full characterisation in `FromHexSucceeds`, inverse in `FromHexToHex`) |
| Hex.HexNat | custom_components/neewer_gl25c/udp_client.py:32 | `format(n, 'x')` is non-empty lowercase hex; one digit exactly below 16, at most two below 256 |
| Hex.Format02x | custom_components/neewer_gl25c/udp_client.py:120 | `f"{n:02x}"` is lowercase hex of at least two digits, exactly two for a byte |
| Hex.ToHexIsLower | custom_components/neewer_gl25c/udp_client.py:120 | `bytes.hex` output consists only of lowercase hex digits |
| Hex.ToHexAppend | custom_components/neewer_gl25c/udp_client.py:120 | the hex text of a concatenation is the concatenation of the hex texts |
| Hex.FromHexToHex | custom_components/neewer_gl25c/udp_client.py:77 | `fromhex` inverts `hex`: decoding the text of any bytes gives those bytes back |
| Hex.ToHexFromHex | custom_components/neewer_gl25c/udp_client.py:77 | for lowercase even-length hex text, `hex` inverts `fromhex` |
| Hex.FromHexSucceeds | custom_components/neewer_gl25c/udp_client.py:77 | `fromhex` succeeds exactly on even-length text of hex digits, either case, and yields half as many bytes |
| Hex.FromHexCons | custom_components/neewer_gl25c/udp_client.py:77 | decoding two digits of a byte in front of text yields that byte in front of the decoded rest, or fails with the rest |
| Hex.FromHexHead | custom_components/neewer_gl25c/udp_client.py:77 | a successful decode starts with the byte spelled by its first two digits |
| Hex.Format02xOfByte | custom_components/neewer_gl25c/udp_client.py:120 | `f"{n:02x}"` of a byte is exactly its two-digit `hex` text |
| Hex.Format02xWide | custom_components/neewer_gl25c/udp_client.py:32 | `f"{n:02x}"` of a value of 256 or more has at least three digits, so it is not padded or cut to two |
| Frames.Xor | custom_components/neewer_gl25c/udp_client.py:112 | Python's `^` on naturals, bit by bit; its algebra is stated by `XorZero`, `XorSelf`, `XorAssociative`, `XorBound` and `XorCancels` |
| Frames.XorSelf | custom_components/neewer_gl25c/udp_client.py:112 | a value XOR itself is 0 |
| Frames.XorAssociative | custom_components/neewer_gl25c/udp_client.py:112 | `^` is associative, so the fold can be regrouped |
| Frames.XorBound | custom_components/neewer_gl25c/udp_client.py:112 | XOR of two values below a power of two stays below it, so the running checksum stays a byte |
| Frames.XorCancels | custom_components/neewer_gl25c/udp_client.py:112 | `x ^ c` is 0 exactly when `c == x` |
| Frames.XorByte | custom_components/neewer_gl25c/udp_client.py:112 | `checksum ^= byte` on two bytes is a byte equal to their XOR |
| Frames.XorFold | custom_components/neewer_gl25c/udp_client.py:108-113 | `calculate_checksum` as a fold from 0; both checksum loops are proved equal to it, and `XorFoldAppend` / `XorFoldWithChecksum` state its properties |
| Frames.XorFoldAppend | custom_components/neewer_gl25c/udp_client.py:108-113 | the checksum of a concatenation is the XOR of the parts' checksums |
| Frames.XorFoldWithChecksum | custom_components/neewer_gl25c/udp_client.py:118-120 | data followed by its checksum has XOR 0 |
| Frames.BrightnessTemperatureFrame | custom_components/neewer_gl25c/udp_client.py:118-120 | the datagram `set_brightness_temperature` sends; its layout and characterisation are `BrightnessTemperatureFrameLayout` and `BrightnessTemperatureFrameCharacterized` |
| Frames.BrightnessTemperatureFrameLayout | custom_components/neewer_gl25c/udp_client.py:115-121 | the frame is seven bytes: the header `80 05 03 02`, brightness, temperature, and the XOR of the first six; the XOR of all seven is 0 |
| Frames.BrightnessTemperatureFrameCharacterized | custom_components/neewer_gl25c/udp_client.py:115-121 | a datagram is such a frame exactly when it has seven bytes, the header, and XOR 0 |
| Frames.ZeroXorFrameIsFrame | custom_components/neewer_gl25c/udp_client.py:118-120 | a seven-byte datagram with the header and XOR 0 is the frame of its own payload |
| Frames.BrightnessTemperatureFrameHex | custom_components/neewer_gl25c/udp_client.py:77 | the frame's text is 14 lowercase hex digits and `fromhex` gives back the frame |
| Frames.BrightnessTemperatureFrameBytes | custom_components/neewer_gl25c/udp_client.py:118-119 | the frame as seven explicit bytes |
| Frames.BrightnessTemperatureFrameText | custom_components/neewer_gl25c/udp_client.py:120 | the frame's text is `80050302` followed by the two-digit texts of brightness, temperature and checksum |
| Frames.ChecksumExample | custom_components/neewer_gl25c/udp_client.py:108-113 | the checksum of `80 05 03 02 64 32` is `0xd2` |
| Frames.BrightnessTemperatureFrameExample | custom_components/neewer_gl25c/udp_client.py:118-120 | `(100, 50)` gives the bytes `80 05 03 02 64 32 d2` |
| Frames.BrightnessTemperatureFrameTextExample | custom_components/neewer_gl25c/udp_client.py:115-121 | `(100, 50)` is sent as `800503026432d2` |
| Frames.Split | custom_components/neewer_gl25c/udp_client.py:31 | `str.split` always yields at least one piece |
| Frames.SplitPartsLackSeparator | custom_components/neewer_gl25c/udp_client.py:31 | no piece of a split contains the separator |
| Frames.JoinSplit | custom_components/neewer_gl25c/udp_client.py:31 | joining the pieces with the separator gives back the host string |
| Frames.SplitPrefix | custom_components/neewer_gl25c/udp_client.py:31 | a separator-free prefix followed by the separator splits off as the first piece |
| Frames.SplitWithoutSeparator | custom_components/neewer_gl25c/udp_client.py:31 | a string without the separator splits into itself alone |
| Frames.SplitDottedQuad | custom_components/neewer_gl25c/udp_client.py:31 | `a.b.c.d` splits into its four numerals |
| Frames.ParseDecimal | custom_components/neewer_gl25c/udp_client.py:32 | `int(part)` on a host part: the value of a numeral of ASCII digits, leading zeros allowed, and a `ValueError` otherwise; `ParseToDecimal` and `LeadingZeroPart` relate it to canonical numerals |
| Frames.ToDecimal | custom_components/neewer_gl25c/udp_client.py:32 | the canonical numeral of `n`, a reference inverse of `int(part)` used to write hosts: always a non-empty string of decimal digits |
| Frames.ParseToDecimal | custom_components/neewer_gl25c/udp_client.py:32 | `int` reads the canonical numeral of `n` as `n` |
| Frames.LeadingZeroPart | custom_components/neewer_gl25c/udp_client.py:32 | `int` reads `010` as 10, so host parts need not be canonical numerals |
| Frames.OctetsHex | custom_components/neewer_gl25c/udp_client.py:32 | the joined `{int(part):02x}` text is lowercase hex with at least two digits per part, or fails when some `int` call raises |
| Frames.OctetsHexStep | custom_components/neewer_gl25c/udp_client.py:32 | any part that `int` reads as a value in 0..255, leading zeros included, contributes exactly that value's two hex digits in front of the rest, and a failing rest fails the join |
| Frames.OctetsHexOfParts | custom_components/neewer_gl25c/udp_client.py:32 | parts that `int` reads as octets, any number of them, join to the `hex` text of those octets |
| Frames.OctetsHexRejects | custom_components/neewer_gl25c/udp_client.py:32 | one part that `int` rejects makes the whole join fail |
| Frames.OctetsHexOfFour | custom_components/neewer_gl25c/udp_client.py:32 | four parts in 0..255 join to the `hex` text of the four octets |
| Frames.HandshakeTextDecodes | custom_components/neewer_gl25c/udp_client.py:33 | prefix, octet digits and suffix decode to `80 02 10 00 00 0d`, the octets, and `2e` |
| Frames.HandshakeHex | custom_components/neewer_gl25c/udp_client.py:31-33 | the handshake text; stated by `HandshakeOfParts`, `HandshakeRejects` and `HandshakeOfDottedQuad` |
| Frames.HandshakeFrame | custom_components/neewer_gl25c/udp_client.py:77 | the handshake datagram, the handshake text decoded by `fromhex`; stated by `HandshakeOfParts` and `HandshakeRejects` |
| Frames.HandshakeOfParts | custom_components/neewer_gl25c/udp_client.py:31-33 | for every host whose `.`-separated parts `int` reads as octets, the handshake is `80021000000d` + each octet as two lowercase hex digits + `2e`, and decodes to `80 02 10 00 00 0d`, the octets, `2e` |
| Frames.HandshakeRejects | custom_components/neewer_gl25c/udp_client.py:31-33 | a host with a part `int` rejects has no handshake text and no datagram |
| Frames.HandshakeOfDottedQuad | custom_components/neewer_gl25c/udp_client.py:31-33 | for `a.b.c.d` with parts in 0..255 the handshake is `80021000000d` + the octets in hex + `2e` and decodes to those eleven bytes |
| Frames.HandshakeExample | custom_components/neewer_gl25c/udp_client.py:31-33 | `192.168.1.100` gives `80021000000dc0a801642e` |
| Const.PowerOnIsText | custom_components/neewer_gl25c/const.py:10 | `COMMAND_POWER_ON` is the hex text of `80 05 02 01 01 89` |
| Const.PowerOnDecodes | custom_components/neewer_gl25c/const.py:10 | `fromhex(COMMAND_POWER_ON)` is `80 05 02 01 01 89` |
| Const.PowerOffIsText | custom_components/neewer_gl25c/const.py:11 | `COMMAND_POWER_OFF` is the hex text of `80 05 02 01 00 88` |
| Const.PowerOffDecodes | custom_components/neewer_gl25c/const.py:11 | `fromhex(COMMAND_POWER_OFF)` is `80 05 02 01 00 88` |
| Const.QueryPowerIsText | custom_components/neewer_gl25c/const.py:12 | `COMMAND_QUERY_POWER` is the hex text of `80 04 02 01 06` |
| Const.QueryPowerDecodes | custom_components/neewer_gl25c/const.py:12 | `fromhex(COMMAND_QUERY_POWER)` is the five bytes `80 04 02 01 06` |
| Const.PowerFramesDiffer | custom_components/neewer_gl25c/const.py:10-11 | the power frames are six bytes each and differ only in the fifth and sixth |
| Const.PowerFramesUseSumNotXor | custom_components/neewer_gl25c/const.py:10-11 | each power frame's last byte is the byte sum mod 256 of the others (0x89, 0x88) and not their XOR (0x87, 0x86) |
| Const.ByteSumOfFive | custom_components/neewer_gl25c/const.py:10-11 | the byte sum of five bytes, spelled out |
| Const.CommandsAreWellFormedHex | custom_components/neewer_gl25c/const.py:10-12 | every command text has even length, is lowercase hex, and decodes |
| UdpClient.DefaultPortAgrees | custom_components/neewer_gl25c/const.py:7 | the client's default port is `DEFAULT_PORT`, 5052 |
| UdpClient.HeartbeatIsQueryPower | custom_components/neewer_gl25c/udp_client.py:88 | the heartbeat literal is `COMMAND_QUERY_POWER` |
| UdpClient.HeartbeatDecodes | custom_components/neewer_gl25c/udp_client.py:88 | the heartbeat datagram is the power query's five bytes |
| UdpClient.EncodedFrame | custom_components/neewer_gl25c/udp_client.py:120 | `data.hex() + f"{c:02x}"` decodes to the data followed by `c` |
| UdpClient.NeewerUDPClient.constructor | custom_components/neewer_gl25c/udp_client.py:14-20 | host and port (default 5052) stored; no socket, no heartbeat, not connected |
| UdpClient.NeewerUDPClient.Connect | custom_components/neewer_gl25c/udp_client.py:22-46 | true exactly when the socket opens, every host part parses and the handshake send succeeds; on success connected, a fresh heartbeat handle and the handshake on the wire; on failure connected flag, handle and wire unchanged; an opened socket is kept either way |
| UdpClient.NeewerUDPClient.Disconnect | custom_components/neewer_gl25c/udp_client.py:48-57 | afterwards no socket, no handle and not connected; the old socket is closed and the old task cancelled; on a closed session it changes nothing |
| UdpClient.NeewerUDPClient.SendCommand | custom_components/neewer_gl25c/udp_client.py:59-70 | true exactly when connected and the raw send succeeds; on true the decoded command is on the wire, otherwise nothing is sent and nothing is raised |
| UdpClient.NeewerUDPClient.SendRaw | custom_components/neewer_gl25c/udp_client.py:72-80 | raises for a missing socket, then for malformed hex, then for a failed send; only success puts the decoded bytes on the wire |
| UdpClient.NeewerUDPClient.StartHeartbeat | custom_components/neewer_gl25c/udp_client.py:82-95 | a fresh task handle is installed, replacing any previous one |
| UdpClient.NeewerUDPClient.StopHeartbeat | custom_components/neewer_gl25c/udp_client.py:97-106 | a held task is cancelled and the handle dropped; with no handle nothing changes |
| UdpClient.NeewerUDPClient.HeartbeatStep | custom_components/neewer_gl25c/udp_client.py:84-92 | the loop goes on exactly when connected and the query send succeeds, and then the power query is on the wire |
| UdpClient.NeewerUDPClient.CalculateChecksum | custom_components/neewer_gl25c/udp_client.py:108-113 | the result is the XOR fold of all bytes, a byte, and 0 for no bytes |
| UdpClient.NeewerUDPClient.SetBrightnessTemperature | custom_components/neewer_gl25c/udp_client.py:115-121 | true exactly when connected and the send succeeds, and then the seven-byte frame `80 05 03 02 b t c` is on the wire |
| UdpClient.ReconnectOrphansHeartbeat | custom_components/neewer_gl25c/udp_client.py:94 | two connects in a row leave the first heartbeat task neither held nor cancelled, and send two handshakes |
| Light.TruncDiv | custom_components/neewer_gl25c/light.py:161 | `int(n / d)` is the quotient rounded toward zero, for either sign of `n` |
| Light.Clamp | custom_components/neewer_gl25c/light.py:171 | `max(lo, min(hi, v))` lies in `lo..hi`, is `v` inside it and the nearer end outside |
| Light.DeviceBrightness | custom_components/neewer_gl25c/light.py:161 | a brightness in 0..255 maps into `MIN_BRIGHTNESS..MAX_BRIGHTNESS` |
| Light.DeviceBrightnessEnds | custom_components/neewer_gl25c/light.py:161 | 100 percent exactly for 255, and 0 for 0 |
| Light.DeviceBrightnessMonotone | custom_components/neewer_gl25c/light.py:161 | the brightness conversion is monotone |
| Light.DeviceBrightnessExamples | custom_components/neewer_gl25c/light.py:161 | 0 maps to 0, 128 to 50, and 255 to 100 |
| Light.MiredsToKelvin | custom_components/neewer_gl25c/light.py:168 | `1000000 // m` is the floor of the quotient |
| Light.KelvinToDevice | custom_components/neewer_gl25c/light.py:170-171 | the temperature level is always in 0..100 |
| Light.KelvinRangeIsConstRange | custom_components/neewer_gl25c/const.py:15-16 | `MIN_KELVIN < MAX_KELVIN`, their difference is the divisor 4100, and they map to levels 0 and 100 |
| Light.KelvinToDeviceInRange | custom_components/neewer_gl25c/light.py:170-171 | within 2900..7000 K the clamp never applies |
| Light.KelvinToDeviceOutside | custom_components/neewer_gl25c/light.py:170-171 | at or below 2900 K the level is 0, at or above 7000 K it is 100 |
| Light.KelvinToDeviceMonotone | custom_components/neewer_gl25c/light.py:170-171 | the kelvin conversion is monotone |
| Light.KelvinToDeviceExamples | custom_components/neewer_gl25c/light.py:170-171 | 2900 K maps to 0, 3000 K to 2, 6500 K to 87, and 7000 K to 100 |
| Light.MiredsToDevice | custom_components/neewer_gl25c/light.py:168-171 | a colour temperature in mireds yields a level in 0..100 |
| Light.MiredsToDeviceAntitone | custom_components/neewer_gl25c/light.py:168-171 | more mireds never give a higher level |
| Light.MiredsToDeviceExamples | custom_components/neewer_gl25c/light.py:104-112 | 143 mireds is 6993 K, level 99; 345 mireds is 2898 K, level 0; the default 370 mireds gives level 0 |
| Light.ReplaceDots | custom_components/neewer_gl25c/light.py:87 | `replace('.', '_')` keeps the length and changes exactly the dots |
| Light.UniqueIdFor | custom_components/neewer_gl25c/light.py:84-87 | the id is `neewer_gl25c_` followed by the host without dots, as long as both together |
| Light.UniqueIdInjective | custom_components/neewer_gl25c/light.py:84-87 | hosts without underscores have distinct ids |
| Light.UniqueIdCollision | custom_components/neewer_gl25c/light.py:84-87 | `1.2` and `1_2` share an id |
| Light.SameIdWhenDotsAgree | custom_components/neewer_gl25c/light.py:87 | hosts equal up to dots-versus-underscores share an id |
| Light.LevelFrame | custom_components/neewer_gl25c/light.py:158-174 | the turn-on datagram is seven bytes with the header, XOR 0, and the converted brightness and temperature, each at most 100 |
| Light.NeewerGL25CLight.constructor | custom_components/neewer_gl25c/light.py:68-77 | off, brightness 255, 370 mireds, unavailable, with a fresh unconnected client to the same host and port |
| Light.NeewerGL25CLight.AddedToHass | custom_components/neewer_gl25c/light.py:134-141 | available once the connect succeeds, otherwise as before; the handshake is sent exactly when it succeeds; on success the client is connected with a fresh heartbeat handle, on failure its connected flag and handle are unchanged; an opened socket is kept either way; no task is cancelled |
| Light.NeewerGL25CLight.WillRemoveFromHass | custom_components/neewer_gl25c/light.py:143-145 | the client is disconnected and nothing is sent; its socket is closed and its heartbeat task cancelled |
| Light.NeewerGL25CLight.TurnOn | custom_components/neewer_gl25c/light.py:147-174 | unavailable: nothing changes; otherwise on once the power command went out; brightness stored when given, whatever the power send did; colour temperature stored only alongside a brightness; the level frame sent only with a brightness |
| Light.NeewerGL25CLight.PowerOn | custom_components/neewer_gl25c/light.py:152-155 | the entity becomes on exactly when the power-on command went out, and that frame is on the wire |
| Light.NeewerGL25CLight.TurnOff | custom_components/neewer_gl25c/light.py:176-183 | unavailable: nothing; otherwise off exactly when the power-off command went out |
| TestLight.NeewerTestClient.constructor | test_light.py:20-25 | host and port (default 5052); no socket, no thread, heartbeat inactive |
| TestLight.NeewerTestClient.SendCommand | test_light.py:27-35 | without a socket nothing is sent and nothing raised; otherwise malformed hex or a failed send raises, and success puts the bytes on the wire |
| TestLight.NeewerTestClient.Connect | test_light.py:37-54 | the first exception (socket, `int`, `fromhex`, send) ends the call; the socket is kept once created; only full success starts the heartbeat and sends the handshake |
| TestLight.NeewerTestClient.StartHeartbeat | test_light.py:56-66 | the flag is raised and a fresh thread installed |
| TestLight.NeewerTestClient.HeartbeatStep | test_light.py:58-61 | the loop goes on while the flag is up unless the send raises; a missing socket only skips the send |
| TestLight.NeewerTestClient.StopHeartbeat | test_light.py:68-73 | the flag is lowered; the thread handle is kept |
| TestLight.NeewerTestClient.Disconnect | test_light.py:75-81 | heartbeat inactive, no socket, the old socket closed; on a closed client nothing changes |
| TestLight.NeewerTestClient.CalculateChecksum | test_light.py:83-88 | the same XOR fold as the integration's checksum |
| TestLight.NeewerTestClient.SendLevels | test_light.py:105-108 | the frame `80 05 03 02 b t c` with its XOR checksum is sent exactly when there is a socket and the send succeeds; a missing socket is skipped, a failed send raises |
| TestLight.NeewerTestClient.TestPowerOn | test_light.py:90-93 | the power-on frame is sent when there is a socket and the send succeeds |
| TestLight.NeewerTestClient.TestPowerOff | test_light.py:95-98 | the power-off frame is sent when there is a socket and the send succeeds |
| TestLight.NeewerTestClient.TestBrightness | test_light.py:100-108 | sends the frame `80 05 03 02 b 32 c` |
| TestLight.NeewerTestClient.TestColorTemperature | test_light.py:110-121 | sends the frame for brightness 50 and the kelvin value's level |
| TestLight.MenuSetBrightness | test_light.py:163-171 | a value is tested exactly when it is in 0..100; otherwise nothing is sent |
| TestLight.MenuSetColorTemperature | test_light.py:173-181 | a value is tested exactly when it is in 2900..7000 K; otherwise nothing is sent |
| TestLight.TestBrightnessExample | test_light.py:100-108 | `test_brightness(100)` sends `800503026432d2` |
| TestLight.TestColorTemperatureLevels | test_light.py:110-121 | over 2900..7000 K the level is the truncated proportion in 0..100: 2900 K gives 0, 3000 K 2, 6500 K 87, 7000 K 100 |

## Left out

- Sockets, `sendto` / `sock_sendto`, `setblocking` and `close`: the transport is abstract. Whether a socket can be created and whether a send is accepted are inputs. A closed socket only leaves the ghost set of open sockets.
- The asyncio event loop and `threading`: `create_task`, `cancel`, `await`, `Thread.start` and `join` are modelled only as a task handle or thread handle and an active flag. Concurrency, the 200 ms sleeps and the interleaving of heartbeat sends with other sends are not modelled; the heartbeat loop is modelled as one step at a time (`HeartbeatStep`).
- Logging and `print`: they have no behaviour to verify.
- `custom_components/neewer_gl25c/__init__.py` (config-entry forwarding) is not part of this model.
- `PLATFORM_SCHEMA`, `async_setup_platform` and `async_setup_entry`: Home Assistant wiring and voluptuous validation that depend on library code.
- The entity's constant properties (`name`, `supported_color_modes`, `color_mode`, `assumed_state`, the state getters): these just return values. Only `min_mireds` / `max_mireds` appear, as the constants `MinMireds` / `MaxMireds`, whose conversions are stated (`MiredsToDeviceExamples`).
- `async_update`: its body is `pass`.
- Light.NeewerGL25CLight.TurnOn: requires a positive colour temperature. With `color_temp == 0` the code raises `ZeroDivisionError`; that value can only come from the framework, and the path is not modelled.
- Light.NeewerGL25CLight.TurnOn: requires a brightness in 0..255, which Home Assistant guarantees for `ATTR_BRIGHTNESS`.
- UdpClient.NeewerUDPClient.SetBrightnessTemperature: requires brightness and temperature in 0..255. `bytes([...])` raises outside that range, and that exception path is not modelled.
- TestLight.NeewerTestClient.TestBrightness: requires a brightness in 0..255 for the same reason. The menu only calls it with 0..100.
- `int(part)` on host pieces accepts only plain ASCII decimal digits here. Python also accepts signs, surrounding whitespace, underscores between digits and non-ASCII digits: those inputs are treated as raising.
- `bytes.fromhex` skipping whitespace between digit pairs is not modelled: such text is treated as malformed. No command the code builds contains whitespace.
- Float arithmetic: `int(x * 100 / 255)` and `int((k - 2900) * 100 / 4100)` are modelled by integer division truncated toward zero. For the operands that occur, the float quotient does not cross an integer boundary.
- `main` of the test tool: argument handling, `input()`, the menu loop, parsing of the typed numbers and the timed quick-test sequence are CLI I/O. Only the two range guards are modelled (`MenuSetBrightness`, `MenuSetColorTemperature`).
