/**
 * The standalone test tool: a blocking UDP client with a heartbeat thread,
 * commands to exercise the light's power, brightness and colour temperature,
 * and the guards of its interactive menu. Unlike the integration's client it
 * catches nothing: a failed socket, a bad address or a failed send raises out
 * of the call. Only a missing socket is reported (by a message) and skipped.
 */
module TestLight {
  import opened Wrappers
  import opened Hex
  import Frames
  import Const
  import UdpClient
  import Light

  /** The handle of the heartbeat thread; only its identity is modelled. */
  class HeartbeatThread {
    constructor () {}
  }

  /** How `send_command` ended: sent, skipped for want of a socket, or raised. */
  datatype SendResult = Sent | NoSocket | Raised(error: UdpClient.Error)

  /** The brightness and temperature the test tool uses when it varies only the other. */
  const FixedLevel: Byte := 50

  class NeewerTestClient {
    const host: string
    const port: int
    var sock: UdpClient.Socket?
    var heartbeatThread: HeartbeatThread?
    var heartbeatActive: bool

    /** Every datagram handed to the transport, oldest first. */
    ghost var wire: seq<seq<Byte>>
    /** The sockets created and not yet closed. */
    ghost var openSockets: set<UdpClient.Socket>

    /** A held socket is open, and an active heartbeat has a thread. */
    ghost predicate Valid()
      reads this
    {
      (sock != null ==> sock in openSockets)
      && (heartbeatActive ==> heartbeatThread != null)
    }

    constructor (host: string, port: int := UdpClient.DefaultPort)
      ensures Valid() && this.host == host && this.port == port
      ensures sock == null && heartbeatThread == null && !heartbeatActive
      ensures wire == [] && openSockets == {}
    {
      this.host := host;
      this.port := port;
      sock := null;
      heartbeatThread := null;
      heartbeatActive := false;
      wire := [];
      openSockets := {};
    }

    /** Decode and send; without a socket, report and send nothing. */
    method SendCommand(hexCommand: string, sendOk: bool) returns (result: SendResult)
      modifies this`wire
      ensures result == if sock == null then NoSocket
                        else if FromHex(hexCommand).None? then Raised(UdpClient.MalformedHex)
                        else if !sendOk then Raised(UdpClient.TransportFailed)
                        else Sent
      ensures wire == if result.Sent? then old(wire) + [FromHex(hexCommand).value] else old(wire)
    {
      if sock == null {
        return NoSocket;
      }
      var data := FromHex(hexCommand);
      if data.None? {
        return Raised(UdpClient.MalformedHex);
      }
      if !sendOk {
        return Raised(UdpClient.TransportFailed);
      }
      wire := wire + [data.value];
      result := Sent;
    }

    /**
     * Open a socket, send the handshake, start the heartbeat. The first
     * exception ends the call (`Some(error)`), with the socket kept if it was
     * already created and the heartbeat not started.
     */
    method Connect(openOk: bool, sendOk: bool) returns (raised: Option<UdpClient.Error>)
      requires Valid()
      modifies this
      ensures Valid()
      ensures raised == if !openOk then Some(UdpClient.SocketCreationFailed)
                        else if Frames.HandshakeHex(host).None? then Some(UdpClient.InvalidAddress)
                        else if Frames.HandshakeFrame(host).None? then Some(UdpClient.MalformedHex)
                        else if !sendOk then Some(UdpClient.TransportFailed)
                        else None
      ensures openOk ==> sock != null && fresh(sock) && openSockets == old(openSockets) + {sock}
      ensures !openOk ==> sock == old(sock) && openSockets == old(openSockets)
      ensures raised.None? ==> heartbeatActive && heartbeatThread != null && fresh(heartbeatThread)
                               && wire == old(wire) + [Frames.HandshakeFrame(host).value]
      ensures raised.Some? ==> heartbeatActive == old(heartbeatActive) && heartbeatThread == old(heartbeatThread)
                               && wire == old(wire)
    {
      if !openOk {
        return Some(UdpClient.SocketCreationFailed);
      }
      var s := new UdpClient.Socket();
      sock := s;
      openSockets := openSockets + {s};
      var handshake := Frames.HandshakeHex(host);
      if handshake.None? {
        return Some(UdpClient.InvalidAddress);
      }
      var sent := SendCommand(handshake.value, sendOk);
      if sent.Raised? {
        return Some(sent.error);
      }
      StartHeartbeat();
      raised := None;
    }

    /** Raise the flag and start a new heartbeat thread. */
    method StartHeartbeat()
      modifies this`heartbeatActive, this`heartbeatThread
      ensures heartbeatActive && heartbeatThread != null && fresh(heartbeatThread)
    {
      heartbeatActive := true;
      heartbeatThread := new HeartbeatThread();
    }

    /** Lower the flag and wait for the thread; the thread's handle is kept. */
    method StopHeartbeat()
      modifies this`heartbeatActive
      ensures !heartbeatActive
    {
      heartbeatActive := false;
    }

    /** Stop the heartbeat and close the socket if there is one. */
    method Disconnect()
      requires Valid()
      modifies this
      ensures Valid()
      ensures !heartbeatActive && sock == null && heartbeatThread == old(heartbeatThread)
      ensures wire == old(wire)
      ensures openSockets == if old(sock) != null then old(openSockets) - {old(sock)} else old(openSockets)
      ensures old(sock) == null && !old(heartbeatActive) ==> unchanged(this)
    {
      StopHeartbeat();
      if sock != null {
        openSockets := openSockets - {sock};
        sock := null;
      }
    }

    /**
     * One turn of the heartbeat thread: while the flag is up, send the power
     * query. A missing socket only prints, so the loop goes on; a raised send
     * ends the thread. The 200 ms pause is not modelled.
     */
    method HeartbeatStep(sendOk: bool) returns (continues: bool)
      modifies this`wire
      ensures continues <==> heartbeatActive && (sock == null || sendOk)
      ensures wire == if heartbeatActive && sock != null && sendOk then old(wire) + [Const.QueryPowerBytes] else old(wire)
    {
      if !heartbeatActive {
        return false;
      }
      UdpClient.HeartbeatDecodes();
      var sent := SendCommand(UdpClient.HeartbeatCommand, sendOk);
      continues := !sent.Raised?;
    }

    /** The XOR of all bytes (`calculate_checksum`). */
    method CalculateChecksum(data: seq<Byte>) returns (checksum: Byte)
      ensures checksum == Frames.XorFold(data)
    {
      checksum := 0;
      var i := 0;
      while i < |data|
        invariant 0 <= i <= |data|
        invariant checksum == Frames.XorFold(data[..i])
      {
        assert data[..i + 1][..i] == data[..i];
        checksum := Frames.XorByte(checksum, data[i]);
        i := i + 1;
      }
      assert data[..|data|] == data;
    }

    /** Send `80 05 03 02 b t c` with its checksum, as the integration's client does. */
    method SendLevels(brightness: Byte, temperature: Byte, sendOk: bool) returns (result: SendResult)
      modifies this`wire
      ensures result == if sock == null then NoSocket else if !sendOk then Raised(UdpClient.TransportFailed) else Sent
      ensures wire == if result.Sent? then old(wire) + [Frames.BrightnessTemperatureFrame(brightness, temperature)] else old(wire)
    {
      var cmdData: seq<Byte> := [0x80, 0x05, 0x03, 0x02, brightness, temperature];
      var checksum := CalculateChecksum(cmdData);
      var command := ToHex(cmdData) + Format02x(checksum);
      UdpClient.EncodedFrame(cmdData, checksum);
      assert cmdData == Frames.BrightnessTemperatureHeader + [brightness, temperature];
      result := SendCommand(command, sendOk);
    }

    method TestPowerOn(sendOk: bool) returns (result: SendResult)
      modifies this`wire
      ensures result == if sock == null then NoSocket else if !sendOk then Raised(UdpClient.TransportFailed) else Sent
      ensures wire == if result.Sent? then old(wire) + [Const.PowerOnBytes] else old(wire)
    {
      Const.PowerOnDecodes();
      result := SendCommand("800502010189", sendOk);
    }

    method TestPowerOff(sendOk: bool) returns (result: SendResult)
      modifies this`wire
      ensures result == if sock == null then NoSocket else if !sendOk then Raised(UdpClient.TransportFailed) else Sent
      ensures wire == if result.Sent? then old(wire) + [Const.PowerOffBytes] else old(wire)
    {
      Const.PowerOffDecodes();
      result := SendCommand("800502010088", sendOk);
    }

    /** A brightness (a byte; `bytes` rejects anything else) at the fixed temperature 50. */
    method TestBrightness(brightness: int, sendOk: bool) returns (result: SendResult)
      requires 0 <= brightness < 256
      modifies this`wire
      ensures result == if sock == null then NoSocket else if !sendOk then Raised(UdpClient.TransportFailed) else Sent
      ensures wire == if result.Sent? then old(wire) + [Frames.BrightnessTemperatureFrame(brightness, FixedLevel)] else old(wire)
    {
      result := SendLevels(brightness, 50, sendOk);
    }

    /** A kelvin value mapped onto 0..100 at the fixed brightness 50. */
    method TestColorTemperature(kelvin: int, sendOk: bool) returns (result: SendResult)
      modifies this`wire
      ensures result == if sock == null then NoSocket else if !sendOk then Raised(UdpClient.TransportFailed) else Sent
      ensures wire == if result.Sent? then old(wire) + [Frames.BrightnessTemperatureFrame(FixedLevel, Light.KelvinToDevice(kelvin))] else old(wire)
    {
      var tempValue := Light.KelvinToDevice(kelvin);
      result := SendLevels(50, tempValue, sendOk);
    }
  }

  /**
   * Menu option 3: a brightness outside 0..100 is refused (`None`) and
   * nothing is sent; otherwise it is tested.
   */
  method MenuSetBrightness(client: NeewerTestClient, brightness: int, sendOk: bool) returns (result: Option<SendResult>)
    modifies client`wire
    ensures result.None? <==> !(0 <= brightness <= 100)
    ensures result.None? ==> client.wire == old(client.wire)
    ensures result.Some? ==> client.wire == if result.value.Sent?
      then old(client.wire) + [Frames.BrightnessTemperatureFrame(brightness, FixedLevel)] else old(client.wire)
  {
    if 0 <= brightness <= 100 {
      var r := client.TestBrightness(brightness, sendOk);
      result := Some(r);
    } else {
      result := None;
    }
  }

  /**
   * Menu option 4: a colour temperature outside 2900..7000 K is refused
   * (`None`) and nothing is sent; otherwise it is tested.
   */
  method MenuSetColorTemperature(client: NeewerTestClient, kelvin: int, sendOk: bool) returns (result: Option<SendResult>)
    modifies client`wire
    ensures result.None? <==> !(Const.MIN_KELVIN <= kelvin <= Const.MAX_KELVIN)
    ensures result.None? ==> client.wire == old(client.wire)
    ensures result.Some? ==> client.wire == if result.value.Sent?
      then old(client.wire) + [Frames.BrightnessTemperatureFrame(FixedLevel, Light.KelvinToDevice(kelvin))] else old(client.wire)
  {
    if 2900 <= kelvin <= 7000 {
      var r := client.TestColorTemperature(kelvin, sendOk);
      result := Some(r);
    } else {
      result := None;
    }
  }

  /** `test_brightness(100)` sends `800503026432d2`: the fixed temperature 50 is the byte `32`. */
  lemma TestBrightnessExample()
    ensures FixedLevel == 0x32
    ensures ToHex(Frames.BrightnessTemperatureFrame(100, FixedLevel)) == "800503026432d2"
  {
    Frames.BrightnessTemperatureFrameTextExample();
  }

  /** `test_color_temperature` over its menu range sends a level in 0..100, with the tool's sample values. */
  lemma TestColorTemperatureLevels(kelvin: int)
    requires Const.MIN_KELVIN <= kelvin <= Const.MAX_KELVIN
    ensures 0 <= Light.KelvinToDevice(kelvin) <= 100
    ensures Light.KelvinToDevice(kelvin) == (kelvin - Const.MIN_KELVIN) * 100 / (Const.MAX_KELVIN - Const.MIN_KELVIN)
    ensures Light.KelvinToDevice(2900) == 0 && Light.KelvinToDevice(3000) == 2
    ensures Light.KelvinToDevice(6500) == 87 && Light.KelvinToDevice(7000) == 100
  {
    Light.KelvinToDeviceInRange(kelvin);
    Light.KelvinToDeviceExamples();
  }
}
