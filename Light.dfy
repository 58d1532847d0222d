/**
 * The Home Assistant light entity of the GL25C: its state (on/off,
 * brightness on Home Assistant's 0..255 scale, colour temperature in
 * mireds, availability), the conversions to the device's 0..100 scales, and
 * the turn-on/turn-off/add/remove handlers that drive the UDP client.
 */
module Light {
  import opened Wrappers
  import opened Hex
  import Frames
  import Const
  import UdpClient

  /** The coldest colour temperature the entity reports, in mireds (about 7000 K). */
  const MinMireds: int := 143
  /** The warmest colour temperature the entity reports, in mireds (about 2900 K). */
  const MaxMireds: int := 345

  /** Python's `int(n / d)` for `d > 0`: the quotient rounded toward zero. */
  function TruncDiv(n: int, d: int): (q: int)
    requires d > 0
    ensures 0 <= n ==> 0 <= q && q * d <= n < q * d + d
    ensures n < 0 ==> q <= 0 && q * d - d < n <= q * d
  {
    if n >= 0 then n / d else -((-n) / d)
  }

  /** Python's `max(lo, min(hi, v))`. */
  function Clamp(lo: int, hi: int, v: int): (r: int)
    requires lo <= hi
    ensures lo <= r <= hi
    ensures lo <= v <= hi ==> r == v
    ensures v < lo ==> r == lo
    ensures hi < v ==> r == hi
  {
    if v < lo then lo else if hi < v then hi else v
  }

  /** Home Assistant's brightness (0..255) on the device's percent scale, truncated. */
  function DeviceBrightness(brightness: int): (level: int)
    ensures 0 <= brightness <= 255 ==> Const.MIN_BRIGHTNESS <= level <= Const.MAX_BRIGHTNESS
  {
    TruncDiv(brightness * 100, 255)
  }

  /** Only full brightness maps to 100 percent, and darkness only to 0. */
  lemma DeviceBrightnessEnds(brightness: int)
    requires 0 <= brightness <= 255
    ensures DeviceBrightness(brightness) == 100 <==> brightness == 255
    ensures brightness == 0 ==> DeviceBrightness(brightness) == 0
  {
  }

  lemma DeviceBrightnessMonotone(a: int, b: int)
    requires 0 <= a <= b
    ensures DeviceBrightness(a) <= DeviceBrightness(b)
  {
    var qa, qb := DeviceBrightness(a), DeviceBrightness(b);
    assert qa * 255 <= a * 100 <= b * 100 < qb * 255 + 255;
  }

  lemma DeviceBrightnessExamples()
    ensures DeviceBrightness(0) == 0 && DeviceBrightness(128) == 50 && DeviceBrightness(255) == 100
  {
  }

  /** `1000000 // mireds`: the colour temperature in kelvin, rounded down. */
  function MiredsToKelvin(mireds: int): (kelvin: int)
    requires mireds > 0
    ensures 0 <= kelvin && kelvin * mireds <= 1000000 < kelvin * mireds + mireds
  {
    1000000 / mireds
  }

  /** A kelvin value on the device's 0..100 warm-to-cold scale: 2900 K to 7000 K, truncated and clamped. */
  function KelvinToDevice(kelvin: int): (level: int)
    ensures 0 <= level <= 100
  {
    Clamp(0, 100, TruncDiv((kelvin - 2900) * 100, 7000 - 2900))
  }

  /** The scale's ends are the device's kelvin range. */
  lemma KelvinRangeIsConstRange()
    ensures Const.MIN_KELVIN == 2900 && Const.MAX_KELVIN == 7000
    ensures Const.MIN_KELVIN < Const.MAX_KELVIN && Const.MAX_KELVIN - Const.MIN_KELVIN == 4100
    ensures KelvinToDevice(Const.MIN_KELVIN) == 0 && KelvinToDevice(Const.MAX_KELVIN) == 100
  {
  }

  /** Inside the range the clamp never applies: the level is the truncated proportion. */
  lemma KelvinToDeviceInRange(kelvin: int)
    requires Const.MIN_KELVIN <= kelvin <= Const.MAX_KELVIN
    ensures KelvinToDevice(kelvin) == (kelvin - 2900) * 100 / 4100
  {
  }

  /** Below the range the level is 0, above it 100. */
  lemma KelvinToDeviceOutside(kelvin: int)
    ensures kelvin <= Const.MIN_KELVIN ==> KelvinToDevice(kelvin) == 0
    ensures kelvin >= Const.MAX_KELVIN ==> KelvinToDevice(kelvin) == 100
  {
  }

  lemma KelvinToDeviceMonotone(j: int, k: int)
    requires j <= k
    ensures KelvinToDevice(j) <= KelvinToDevice(k)
  {
    var p, q := TruncDiv((j - 2900) * 100, 4100), TruncDiv((k - 2900) * 100, 4100);
    if 0 <= (j - 2900) * 100 {
      assert p * 4100 <= (j - 2900) * 100 <= (k - 2900) * 100 < q * 4100 + 4100;
    }
  }

  lemma KelvinToDeviceExamples()
    ensures KelvinToDevice(2900) == 0 && KelvinToDevice(3000) == 2
    ensures KelvinToDevice(6500) == 87 && KelvinToDevice(7000) == 100
  {
  }

  /** The device's temperature level for a colour temperature in mireds. */
  function MiredsToDevice(mireds: int): (level: int)
    requires mireds > 0
    ensures 0 <= level <= 100
  {
    KelvinToDevice(MiredsToKelvin(mireds))
  }

  /** More mireds is warmer light: the device level never rises with the mireds. */
  lemma MiredsToDeviceAntitone(a: int, b: int)
    requires 0 < a <= b
    ensures MiredsToDevice(b) <= MiredsToDevice(a)
  {
    var ka, kb := MiredsToKelvin(a), MiredsToKelvin(b);
    assert kb * a <= kb * b <= 1000000 < ka * a + a;
    KelvinToDeviceMonotone(kb, ka);
  }

  /**
   * The entity's own mired bounds and its default: 143 mireds is 6993 K,
   * level 99 (so 100 is never sent from the mired range), 345 mireds is
   * 2898 K and the default 370 mireds is 2702 K, both level 0.
   */
  lemma MiredsToDeviceExamples()
    ensures MiredsToKelvin(MinMireds) == 6993 && MiredsToDevice(MinMireds) == 99
    ensures MiredsToKelvin(MaxMireds) == 2898 && MiredsToDevice(MaxMireds) == 0
    ensures MiredsToKelvin(370) == 2702 && MiredsToDevice(370) == 0
  {
  }

  /** Python's `s.replace('.', '_')`. */
  function ReplaceDots(s: string): (r: string)
    ensures |r| == |s|
    ensures forall i | 0 <= i < |s| :: r[i] == (if s[i] == '.' then '_' else s[i])
  {
    if s == [] then [] else [if s[0] == '.' then '_' else s[0]] + ReplaceDots(s[1..])
  }

  const UniqueIdPrefix: string := "neewer_gl25c_"

  /** The entity's unique id for a host. */
  function UniqueIdFor(host: string): (id: string)
    ensures |id| == |UniqueIdPrefix| + |host| && id[..|UniqueIdPrefix|] == UniqueIdPrefix
    ensures forall i | |UniqueIdPrefix| <= i < |id| :: id[i] != '.'
  {
    UniqueIdPrefix + ReplaceDots(host)
  }

  /** Hosts without underscores get distinct ids. */
  lemma UniqueIdInjective(h1: string, h2: string)
    requires forall i | 0 <= i < |h1| :: h1[i] != '_'
    requires forall i | 0 <= i < |h2| :: h2[i] != '_'
    requires UniqueIdFor(h1) == UniqueIdFor(h2)
    ensures h1 == h2
  {
    var r1, r2 := ReplaceDots(h1), ReplaceDots(h2);
    assert r1 == UniqueIdFor(h1)[|UniqueIdPrefix|..];
    assert r2 == UniqueIdFor(h2)[|UniqueIdPrefix|..];
    forall i | 0 <= i < |h1| ensures h1[i] == h2[i] {
      assert r1[i] == r2[i];
    }
  }

  /** A dot and an underscore in the same place give the same id. */
  lemma UniqueIdCollision()
    ensures "1.2" != "1_2" && UniqueIdFor("1.2") == UniqueIdFor("1_2")
  {
    SameIdWhenDotsAgree("1.2", "1_2");
  }

  lemma SameIdWhenDotsAgree(h1: string, h2: string)
    requires |h1| == |h2|
    requires forall i | 0 <= i < |h1| :: (if h1[i] == '.' then '_' else h1[i]) == (if h2[i] == '.' then '_' else h2[i])
    ensures UniqueIdFor(h1) == UniqueIdFor(h2)
  {
    assert ReplaceDots(h1) == ReplaceDots(h2);
  }

  /** The datagram `async_turn_on` sends for a brightness and a colour temperature. */
  function LevelFrame(brightness: int, mireds: int): (f: seq<Byte>)
    requires 0 <= brightness <= 255 && mireds > 0
    ensures |f| == 7 && f[..4] == Frames.BrightnessTemperatureHeader && Frames.XorFold(f) == 0
    ensures f[4] == DeviceBrightness(brightness) <= 100 && f[5] == MiredsToDevice(mireds) <= 100
  {
    Frames.BrightnessTemperatureFrameLayout(DeviceBrightness(brightness), MiredsToDevice(mireds));
    Frames.BrightnessTemperatureFrame(DeviceBrightness(brightness), MiredsToDevice(mireds))
  }

  class NeewerGL25CLight {
    const name: string
    const host: string
    const port: int
    const client: UdpClient.NeewerUDPClient
    var isOn: bool
    /** Home Assistant's scale, 0..255. */
    var brightness: int
    /** In mireds. */
    var colorTemp: int
    var available: bool

    /** The entity owns a valid session to its own host and port, and its state is in range. */
    ghost predicate Valid()
      reads this, client
    {
      client.Valid() && client.host == host && client.port == port
      && 0 <= brightness <= 255 && colorTemp > 0
    }

    constructor (name: string, host: string, port: int)
      ensures Valid() && fresh(client)
      ensures this.name == name && this.host == host && this.port == port
      ensures !isOn && brightness == 255 && colorTemp == 370 && !available
      ensures client.sock == null && client.heartbeatTask == null && !client.connected && client.wire == []
    {
      this.name := name;
      this.host := host;
      this.port := port;
      isOn := false;
      brightness := 255;
      colorTemp := 370;
      client := new UdpClient.NeewerUDPClient(host, port);
      available := false;
    }

    /** Connect when the entity is added; a successful connect makes it available. */
    method AddedToHass(openOk: bool, sendOk: bool)
      requires Valid()
      modifies this`available, client
      ensures Valid()
      ensures var ok := openOk && Frames.HandshakeFrame(host).Some? && sendOk;
        available == (old(available) || ok)
        && client.wire == (if ok then old(client.wire) + [Frames.HandshakeFrame(host).value] else old(client.wire))
        && (ok ==> client.connected && client.heartbeatTask != null && fresh(client.heartbeatTask))
        && (!ok ==> client.connected == old(client.connected) && client.heartbeatTask == old(client.heartbeatTask))
    ensures openOk ==> client.sock != null && fresh(client.sock) && client.openSockets == old(client.openSockets) + {client.sock}
    ensures !openOk ==> client.sock == old(client.sock) && client.openSockets == old(client.openSockets)
    ensures client.cancelled == old(client.cancelled)
    {
      var connected := client.Connect(openOk, sendOk);
      if connected {
        available := true;
      }
    }

    /**
     * Disconnect when the entity is removed: the socket is closed and the
     * heartbeat task cancelled; the entity's own state stays as it was.
     */
    method WillRemoveFromHass()
      requires Valid()
      modifies client
      ensures Valid()
      ensures !client.connected && client.sock == null && client.heartbeatTask == null
      ensures client.wire == old(client.wire)
      ensures client.openSockets == if old(client.sock) != null then old(client.openSockets) - {old(client.sock)} else old(client.openSockets)
      ensures client.cancelled == if old(client.heartbeatTask) != null then old(client.cancelled) + {old(client.heartbeatTask)}
                                  else old(client.cancelled)
    {
      client.Disconnect();
    }

    /**
     * Power on, then, when a brightness is given, store it (and the colour
     * temperature if one is given too) and send the level datagram. The level
     * is sent whether or not the power command went out; an unavailable entity
     * does nothing.
     */
    method TurnOn(brightnessArg: Option<int>, colorTempArg: Option<int>, powerSendOk: bool, levelSendOk: bool)
      requires Valid()
      requires brightnessArg.Some? ==> 0 <= brightnessArg.value <= 255
      requires colorTempArg.Some? ==> colorTempArg.value > 0
      modifies this`isOn, this`brightness, this`colorTemp, client`wire
      ensures Valid()
      ensures !available ==> isOn == old(isOn) && brightness == old(brightness)
                             && colorTemp == old(colorTemp) && client.wire == old(client.wire)
      ensures available ==>
        var up := client.connected && client.sock != null;
        isOn == (old(isOn) || (up && powerSendOk))
        && brightness == (if brightnessArg.Some? then brightnessArg.value else old(brightness))
        && colorTemp == (if brightnessArg.Some? && colorTempArg.Some? then colorTempArg.value else old(colorTemp))
        && client.wire == old(client.wire)
                          + (if up && powerSendOk then [Const.PowerOnBytes] else [])
                          + (if brightnessArg.Some? && up && levelSendOk then [LevelFrame(brightness, colorTemp)] else [])
    {
      if !available {
        return;
      }
      PowerOn(powerSendOk);
      if brightnessArg.Some? {
        brightness := brightnessArg.value;
        var lightBrightness := DeviceBrightness(brightness);
        if colorTempArg.Some? {
          colorTemp := colorTempArg.value;
        }
        var kelvin := MiredsToKelvin(colorTemp);
        var tempValue := KelvinToDevice(kelvin);
        var _ := client.SetBrightnessTemperature(lightBrightness, tempValue, levelSendOk);
      }
    }

    /** The first step of `async_turn_on`: send the power-on command; the entity is on once it went out. */
    method PowerOn(sendOk: bool)
      requires Valid()
      modifies this`isOn, client`wire
      ensures Valid()
      ensures var sent := client.connected && client.sock != null && sendOk;
        isOn == (old(isOn) || sent)
        && client.wire == old(client.wire) + (if sent then [Const.PowerOnBytes] else [])
    {
      Const.PowerOnDecodes();
      var success := client.SendCommand(Const.COMMAND_POWER_ON, sendOk);
      if success {
        isOn := true;
      }
    }

    /** Send the power-off command; the entity is off only if it went out. */
    method TurnOff(sendOk: bool)
      requires Valid()
      modifies this`isOn, client`wire
      ensures Valid()
      ensures var sent := available && client.connected && client.sock != null && sendOk;
        isOn == (old(isOn) && !sent)
        && client.wire == old(client.wire) + (if sent then [Const.PowerOffBytes] else [])
    {
      if !available {
        return;
      }
      Const.PowerOffDecodes();
      var success := client.SendCommand(Const.COMMAND_POWER_OFF, sendOk);
      if success {
        isOn := false;
      }
    }
  }
}
