/**
 * The device session of the GL25C light: a UDP "connection" that is only a
 * local socket, a handshake datagram and a heartbeat task, plus the sends of
 * commands given as hex text. The transport itself is not modelled: whether
 * creating the socket and handing a datagram to it succeed are inputs of
 * the methods, and the datagrams handed over are recorded on a ghost wire.
 */
module UdpClient {
  import opened Wrappers
  import opened Hex
  import Frames
  import Const

  /** The port the client sends to unless told otherwise. */
  const DefaultPort: int := 5052

  /** The hex literal the heartbeat loop sends. */
  const HeartbeatCommand: string := "8004020106"

  /** An operating-system datagram socket; only its identity is modelled. */
  class Socket {
    constructor () {}
  }

  /** The handle of a background heartbeat task; only its identity is modelled. */
  class HeartbeatTask {
    constructor () {}
  }

  /** The exceptions the client raises or catches. */
  datatype Error =
    | SocketCreationFailed  // `socket.socket(...)` raised
    | InvalidAddress        // `int(part)` raised on a piece of the host
    | SocketNotInitialized  // `_send_raw` without a socket
    | MalformedHex          // `bytes.fromhex` raised
    | TransportFailed       // `sock_sendto` raised

  /** How a call that may raise ended. */
  datatype Outcome = Done | Raised(error: Error)

  class NeewerUDPClient {
    const host: string
    const port: int
    var sock: Socket?
    var heartbeatTask: HeartbeatTask?
    var connected: bool

    /** Every datagram handed to the transport, oldest first. */
    ghost var wire: seq<seq<Byte>>
    /** The sockets created and not yet closed. */
    ghost var openSockets: set<Socket>
    /** The heartbeat tasks that have been cancelled. */
    ghost var cancelled: set<HeartbeatTask>

    /**
     * The session's invariant: it is connected only with a socket, it holds a
     * heartbeat handle only while connected, and that task is not cancelled.
     */
    ghost predicate Valid()
      reads this
    {
      (connected ==> sock != null)
      && (heartbeatTask != null ==> connected && heartbeatTask !in cancelled)
      && (sock != null ==> sock in openSockets)
    }

    constructor (host: string, port: int := DefaultPort)
      ensures Valid() && this.host == host && this.port == port
      ensures sock == null && heartbeatTask == null && !connected
      ensures wire == [] && openSockets == {} && cancelled == {}
    {
      this.host := host;
      this.port := port;
      sock := null;
      heartbeatTask := null;
      connected := false;
      wire := [];
      openSockets := {};
      cancelled := {};
    }

    /**
     * Open a socket, send the handshake and start the heartbeat. Every
     * exception is caught and reported as `false`. The socket is created
     * first and kept even when a later step fails, and nothing guards a
     * session that is already connected: its socket and heartbeat handle
     * are replaced without being closed or cancelled.
     */
    method Connect(openOk: bool, sendOk: bool) returns (ok: bool)
      requires Valid()
      modifies this
      ensures Valid()
      ensures ok <==> openOk && Frames.HandshakeFrame(host).Some? && sendOk
      ensures openOk ==> sock != null && fresh(sock) && openSockets == old(openSockets) + {sock}
      ensures !openOk ==> sock == old(sock) && openSockets == old(openSockets)
      ensures ok ==> connected && heartbeatTask != null && fresh(heartbeatTask)
      ensures ok ==> wire == old(wire) + [Frames.HandshakeFrame(host).value]
      ensures !ok ==> connected == old(connected) && heartbeatTask == old(heartbeatTask) && wire == old(wire)
      ensures cancelled == old(cancelled)
    {
      if !openOk {
        return false;
      }
      var s := new Socket();
      sock := s;
      openSockets := openSockets + {s};
      var handshake := Frames.HandshakeHex(host);
      if handshake.None? {
        return false;
      }
      var sent := SendRaw(handshake.value, sendOk);
      if sent.Raised? {
        return false;
      }
      connected := true;
      StartHeartbeat();
      ok := true;
    }

    /** Stop the heartbeat, close the socket if there is one, and mark the session disconnected. */
    method Disconnect()
      requires Valid()
      modifies this
      ensures Valid()
      ensures sock == null && heartbeatTask == null && !connected
      ensures wire == old(wire)
      ensures openSockets == if old(sock) != null then old(openSockets) - {old(sock)} else old(openSockets)
      ensures cancelled == if old(heartbeatTask) != null then old(cancelled) + {old(heartbeatTask)} else old(cancelled)
      ensures old(sock) == null && old(heartbeatTask) == null && !old(connected) ==> unchanged(this)
    {
      StopHeartbeat();
      if sock != null {
        openSockets := openSockets - {sock};
        sock := null;
      }
      connected := false;
    }

    /**
     * Send a command given as hex text. Not connected: `false`, nothing sent.
     * Connected: `true` exactly when the raw send does not raise; its
     * exceptions are caught here.
     */
    method SendCommand(commandHex: string, sendOk: bool) returns (ok: bool)
      modifies this`wire
      ensures ok <==> connected && sock != null && FromHex(commandHex).Some? && sendOk
      ensures wire == if ok then old(wire) + [FromHex(commandHex).value] else old(wire)
    {
      if !connected {
        return false;
      }
      var sent := SendRaw(commandHex, sendOk);
      ok := sent.Done?;
    }

    /** Decode the hex text and hand it to the socket; raises without a socket. */
    method SendRaw(hexData: string, sendOk: bool) returns (outcome: Outcome)
      modifies this`wire
      ensures outcome == if sock == null then Raised(SocketNotInitialized)
                         else if FromHex(hexData).None? then Raised(MalformedHex)
                         else if !sendOk then Raised(TransportFailed)
                         else Done
      ensures wire == if outcome.Done? then old(wire) + [FromHex(hexData).value] else old(wire)
    {
      if sock == null {
        return Raised(SocketNotInitialized);
      }
      var data := FromHex(hexData);
      if data.None? {
        return Raised(MalformedHex);
      }
      if !sendOk {
        return Raised(TransportFailed);
      }
      wire := wire + [data.value];
      outcome := Done;
    }

    /** Create the heartbeat task and keep its handle, replacing any previous one. */
    method StartHeartbeat()
      modifies this`heartbeatTask
      ensures heartbeatTask != null && fresh(heartbeatTask)
    {
      heartbeatTask := new HeartbeatTask();
    }

    /** Cancel the heartbeat task, if there is a handle, and drop the handle. */
    method StopHeartbeat()
      modifies this`heartbeatTask, this`cancelled
      ensures heartbeatTask == null
      ensures cancelled == if old(heartbeatTask) != null then old(cancelled) + {old(heartbeatTask)} else old(cancelled)
    {
      if heartbeatTask != null {
        cancelled := cancelled + {heartbeatTask};
        heartbeatTask := null;
      }
    }

    /**
     * One turn of the heartbeat loop: while connected, send the power query;
     * a raised send ends the loop. The 200 ms pause is not modelled.
     */
    method HeartbeatStep(sendOk: bool) returns (continues: bool)
      modifies this`wire
      ensures continues <==> connected && sock != null && sendOk
      ensures wire == if continues then old(wire) + [Const.QueryPowerBytes] else old(wire)
    {
      if !connected {
        return false;
      }
      HeartbeatDecodes();
      var sent := SendRaw(HeartbeatCommand, sendOk);
      continues := sent.Done?;
    }

    /** The XOR of all bytes (`calculate_checksum`). */
    method CalculateChecksum(data: seq<Byte>) returns (checksum: Byte)
      ensures checksum == Frames.XorFold(data)
      ensures data == [] ==> checksum == 0
    {
      checksum := 0;
      for i := 0 to |data|
        invariant checksum == Frames.XorFold(data[..i])
      {
        assert data[..i + 1][..i] == data[..i];
        checksum := Frames.XorByte(checksum, data[i]);
      }
      assert data[..|data|] == data;
    }

    /**
     * Send `80 05 03 02 b t c` with `c` the XOR checksum. `bytes([...])`
     * raises on a value outside 0..255, so callers keep to bytes.
     */
    method SetBrightnessTemperature(brightness: int, temperature: int, sendOk: bool) returns (ok: bool)
      requires 0 <= brightness < 256 && 0 <= temperature < 256
      modifies this`wire
      ensures ok <==> connected && sock != null && sendOk
      ensures wire == if ok then old(wire) + [Frames.BrightnessTemperatureFrame(brightness, temperature)] else old(wire)
    {
      var cmdData: seq<Byte> := [0x80, 0x05, 0x03, 0x02, brightness, temperature];
      var checksum := CalculateChecksum(cmdData);
      var command := ToHex(cmdData) + Format02x(checksum);
      EncodedFrame(cmdData, checksum);
      assert cmdData == Frames.BrightnessTemperatureHeader + [brightness, temperature];
      ok := SendCommand(command, sendOk);
    }
  }

  /**
   * Two successful connects without a disconnect in between: the second
   * installs a new heartbeat handle, and the first task is neither the
   * session's any more nor cancelled, so it keeps running.
   */
  method ReconnectOrphansHeartbeat(client: NeewerUDPClient) returns (first: HeartbeatTask, second: HeartbeatTask)
    requires client.Valid() && Frames.HandshakeFrame(client.host).Some?
    modifies client
    ensures client.Valid() && client.connected && client.heartbeatTask == second
    ensures first != second && first !in client.cancelled
    ensures client.wire == old(client.wire) + [Frames.HandshakeFrame(client.host).value, Frames.HandshakeFrame(client.host).value]
  {
    var ok1 := client.Connect(true, true);
    first := client.heartbeatTask;
    var ok2 := client.Connect(true, true);
    second := client.heartbeatTask;
  }

  /** The text built from the data and its checksum decodes to the frame. */
  lemma EncodedFrame(data: seq<Byte>, checksum: Byte)
    ensures FromHex(ToHex(data) + Format02x(checksum)) == Some(data + [checksum])
  {
    Format02xOfByte(checksum);
    ToHexSnoc(data, checksum);
    FromHexToHex(data + [checksum]);
  }

  /** The heartbeat literal is the power-query command constant. */
  lemma HeartbeatIsQueryPower()
    ensures HeartbeatCommand == Const.COMMAND_QUERY_POWER
  {
  }

  /** The heartbeat datagram is the power query's five bytes. */
  lemma HeartbeatDecodes()
    ensures FromHex(HeartbeatCommand) == Some(Const.QueryPowerBytes)
  {
    HeartbeatIsQueryPower();
    Const.QueryPowerDecodes();
  }

  /** The client's default port is the integration's default port. */
  lemma DefaultPortAgrees()
    ensures DefaultPort == Const.DEFAULT_PORT
  {
  }
}
