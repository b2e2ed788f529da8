/**
 The client library: client objects, the connection registry they share, and the calls of the
 public interface, each proved to do what `ConnRegistries.Do` says.
*/
module Clients {
  import opened Words
  import opened Bytes
  import opened MBufs
  import opened DevIds
  import opened Protocol3s
  import opened Protocol12s
  import opened Negotiations
  import opened ConnRegistries
  import opened EnumPipeline
  import opened ServerAnswers

  // ---------------------------------------------------------------- protocol objects by version

  method CreateOpenRequest(v: u32, dev: DevId) returns (req: bytes)
    requires Supported(v)
    ensures req == OpenRequest(v, dev)
  {
    hide Head, ShortHead;
    if v == 1 {
      var p := new Protocol1(0);
      req := p.CreateClientRequest(PKT_OPEN_REQ, dev.id, None);
    } else if v == 2 {
      var p := new Protocol2(0);
      req := p.CreateClientRequest(PKT_OPEN_REQ, dev.id, None);
    } else {
      var p := new Protocol3(0);
      req := p.CreateClientRequest(PKT3_OPEN_REQ, dev, 0, None);
    }
  }

  method CreateCloseRequest(v: u32, dev: DevId) returns (req: bytes)
    requires Supported(v)
    ensures req == CloseRequest(v, dev)
  {
    hide Head, ShortHead;
    if v == 1 {
      var p := new Protocol1(0);
      req := p.CreateClientRequest(PKT_CLOSE_REQ, dev.id, None);
    } else if v == 2 {
      var p := new Protocol2(0);
      req := p.CreateClientRequest(PKT_CLOSE_REQ, dev.id, None);
    } else {
      var p := new Protocol3(0);
      req := p.CreateClientRequest(PKT3_CLOSE_REQ, dev, 0, None);
    }
  }

  method CreateCommandRequest(v: u32, dev: DevId, data: bytes, respLen: u32) returns (req: bytes)
    requires Supported(v) && |data| < PAYLOAD_LIMIT - 8
    ensures req == CommandRequest(v, dev, data, respLen)
  {
    hide ClientPacket1, CmdRequest2, CmdRequest;
    if v == 1 {
      var p := new Protocol1(0);
      req := p.CreateCmdRequest(dev.id, Some(data), respLen);
    } else if v == 2 {
      var p := new Protocol2(0);
      req := p.CreateCmdRequest(dev.id, data, respLen);
    } else {
      var p := new Protocol3(0);
      req := p.CreateCmdRequest(dev, Some(data), respLen);
    }
  }

  method CreateEnumRequest(v: u32) returns (req: bytes)
    requires Supported(v)
    ensures req == EnumRequest(v)
  {
    hide Head, ShortHead;
    if v == 1 {
      var p := new Protocol1(0);
      req := p.CreateClientRequest(PKT1_ENUM_REQ, 0, None);
    } else if v == 2 {
      req := [];
    } else {
      var p := new Protocol3(0);
      req := p.CreateClientRequest(PKT3_ENUM_REQ, NO_ID, 0, None);
    }
  }

  /** The decoder of version `v`; `error` is the client's error field before and after. */
  method GetData(v: u32, b: Packet, error: u32) returns (ok: bool, pckt: u32, result: u32, data: bytes, error': u32)
    requires Supported(v)
    ensures match DecodeIn(v, b)
            case Rejected(e) => !ok && error' == e
            case Understood(p, r, bs, e) =>
              ok && pckt == p && result == r && data == bs && error' == (if e.Some? then e.value else error)
  {
    hide DecodeReply, DecodeReply1, DecodeReply2;
    var buf := new MBuf.Of(b, true);
    assert buf.data[..] == b;
    if v == 1 {
      var p := new Protocol1(error);
      ok, data, pckt := p.GetDataFromBindyCallback(buf);
      result, error' := p.resErr, p.error;
      StoresNoError(b);
    } else if v == 2 {
      var p := new Protocol2(error);
      ok, data, pckt := p.GetDataFromBindyCallback(buf);
      result, error' := p.resErr, p.error;
      StoresNoError(b);
    } else {
      var p := new Protocol3(error);
      ok, data, pckt := p.GetDataFromBindyCallback(buf);
      result, error' := p.resErr, p.error;
    }
  }

  lemma StoresNoError(b: Packet)
    ensures DecodeReply1(b).Understood? ==> DecodeReply1(b).stored == None
    ensures DecodeReply2(b).Understood? ==> DecodeReply2(b).stored == None
  {
    hide TypeOf, U32At, BeValue, ReadRecords1, LoopCount;
  }

  // ---------------------------------------------------------------- connections

  /** The network component with the registry of connections. */
  class Bindy {
    const net: Network
    var tick: nat
    var registry: map<u32, Client>

    constructor (net: Network)
      ensures this.net == net && tick == 0 && registry == map[]
    {
      this.net, tick, registry := net, 0, map[];
    }

    method Connect(cl: Client) returns (conn: u32)
      modifies this
      ensures conn == net.connect(old(tick)) && tick == old(tick) + 1
      ensures registry == if conn == CONN_INVALID || conn in old(registry) then old(registry) else old(registry)[conn := cl]
    {
      conn := net.connect(tick);
      tick := tick + 1;
      if conn != CONN_INVALID {
        if conn !in registry {
          registry := registry[conn := cl];
        }
      }
    }

    method Disconnect(conn: u32)
      modifies this`registry
      ensures registry == if conn == CONN_INVALID then old(registry) else old(registry) - {conn}
    {
      if conn == CONN_INVALID {
        return;
      }
      if conn in registry {
        registry := registry - {conn};
      }
    }

    predicate IsConnected(conn: u32)
      reads this
    {
      conn in registry
    }

    /** What a client with connection `conn` can expect from the network. */
    function Seen(conn: u32): Network
      reads this
    {
      if IsConnected(conn) then net else Cut(net)
    }

    /** Nothing is sent on a connection that is not there. */
    method Exchange(conn: u32, req: bytes) returns (a: Answer)
      modifies this`tick
      ensures a == old(Seen(conn)).answer(old(tick), req) && tick == old(tick) + 1
    {
      if IsConnected(conn) {
        a := net.answer(tick, req);
      } else {
        a := NotSent;
      }
      tick := tick + 1;
    }
  }

  /** A network on which every message fails to be sent. */
  function Cut(net: Network): Network {
    Network(net.connect, (tick, req) => NotSent)
  }

  class Client {
    var serverProtocolVersion: u32
    var connId: u32
    var lastError: u32
    const dev: DevId

    constructor (version: u32, dev: DevId)
      ensures serverProtocolVersion == version && connId == CONN_INVALID && lastError == 0 && this.dev == dev
    {
      serverProtocolVersion, connId, lastError, this.dev := version, CONN_INVALID, 0, dev;
    }

    method OpenConnection(b: Bindy) returns (ok: bool)
      modifies this`connId, this`lastError, b
      ensures connId == b.net.connect(old(b.tick)) && b.tick == old(b.tick) + 1
      ensures ok <==> connId != CONN_INVALID
      ensures lastError == if ok then 0 else ERR_NO_CONNECTION
      ensures b.registry == if !ok || connId in old(b.registry) then old(b.registry) else old(b.registry)[connId := this]
    {
      lastError := 0;
      connId := b.Connect(this);
      if connId == CONN_INVALID {
        lastError := ERR_NO_CONNECTION;
        return false;
      }
      return true;
    }

    method Disconnect(b: Bindy)
      modifies this`connId, b`registry
      ensures connId == CONN_INVALID
      ensures b.registry == if old(connId) == CONN_INVALID then old(b.registry) else old(b.registry) - {old(connId)}
    {
      b.Disconnect(connId);
      connId := CONN_INVALID;
    }

    method DecrementServerProtocolVersion()
      modifies this`serverProtocolVersion
      ensures serverProtocolVersion == Decrement(old(serverProtocolVersion))
    {
      if serverProtocolVersion > 1 {
        serverProtocolVersion := serverProtocolVersion - 1;
      } else {
        serverProtocolVersion := LAST_VERSION;
      }
    }

    method SendAndReceive(b: Bindy, req: bytes) returns (reply: Option<Packet>)
      modifies this`lastError, b`tick
      ensures b.tick == old(b.tick) + 1
      ensures match old(b.Seen(connId)).answer(old(b.tick), req)
              case NotSent => reply == None && lastError == ERR_SEND_DATA
              case Silent => reply == None && lastError == ERR_RECV_TIMEOUT
              case Message(m) => reply == Some(m) && lastError == old(lastError)
    {
      var a := b.Exchange(connId, req);
      match a
      case NotSent =>
        lastError := ERR_SEND_DATA;
        return None;
      case Silent =>
        lastError := ERR_RECV_TIMEOUT;
        return None;
      case Message(m) =>
        return Some(m);
    }

    method OpenDevice(b: Bindy) returns (ok: bool)
      modifies this`serverProtocolVersion, this`lastError, b`tick
      ensures var a := TryOpen(old(b.Seen(connId)), old(b.tick), old(serverProtocolVersion), dev);
              serverProtocolVersion == a.version && lastError == a.error && b.tick == a.tick && (ok <==> a.error == 0)
    {
      hide OpenRequest, DecodeIn;
      lastError := 0;
      if !Supported(serverProtocolVersion) {
        lastError := ERR_NO_PROTOCOL;
        return false;
      }
      var req := CreateOpenRequest(serverProtocolVersion, dev);
      if |req| == 0 {
        RequestNotEmpty(serverProtocolVersion, dev);
        assert false;
      }
      var reply := SendAndReceive(b, req);
      if reply.None? {
        return false;
      }
      var answerVersion := VersionOf(reply.value);
      if answerVersion != serverProtocolVersion {
        serverProtocolVersion := answerVersion;
        lastError := ERR_ANOTHER_PROTOCOL;
        return false;
      }
      var good, pckt, result, data, error := GetData(serverProtocolVersion, reply.value, lastError);
      lastError := error;
      StoredOnlyWithError(serverProtocolVersion, reply.value);
      RejectionIsError(serverProtocolVersion, reply.value);
      if !good {
        return false;
      }
      if !Positive(serverProtocolVersion, pckt, result) {
        lastError := ERR_DEVICE_OPEN;
        return false;
      }
      return true;
    }

    /** The loop of the opening call. On failure the client may still be connected. */
    method OpenInSomeVersion(b: Bindy, ghost s: State) returns (err: u32)
      requires FreshIds(b.net) && Inv(b.net, s) && s.tick == b.tick && s.registry.Keys == b.registry.Keys
      requires connId == CONN_INVALID
      modifies this, b
      ensures var r := Opening(b.net, old(b.tick), old(serverProtocolVersion), dev, LAST_VERSION);
              && err == r.error && b.tick == r.tick
              && (err == 0 ==> serverProtocolVersion == r.version && connId == r.conn != CONN_INVALID)
              && (err != 0 ==> r.conn == CONN_INVALID)
      ensures connId != CONN_INVALID ==> connId !in old(b.registry)
      ensures b.registry == if connId == CONN_INVALID then old(b.registry) else old(b.registry)[connId := this]
    {
      hide Opening, TryOpen, Inv, FreshIds;
      ghost var net, registry0 := b.net, b.registry;
      ghost var all := Opening(net, b.tick, serverProtocolVersion, dev, LAST_VERSION);
      var ncount := LAST_VERSION;
      err := 0;
      while ncount > 0
        invariant 0 <= ncount <= 3 && s.tick <= b.tick
        invariant b.registry == registry0 && connId == CONN_INVALID
        invariant ncount > 0 ==>
                    all.(tried := []) == Opening(net, b.tick, serverProtocolVersion, dev, ncount).(tried := [])
        invariant ncount == 0 ==> err != 0 && all.error == err && all.tick == b.tick && all.conn == CONN_INVALID
      {
        OpeningStep(net, b.tick, serverProtocolVersion, dev, ncount);
        ncount := ncount - 1;
        NewId(net, s, b.tick);
        var connected := OpenConnection(b);
        if !connected {
          return lastError;
        }
        lastError := 0;
        var _ := OpenDevice(b);
        err := lastError;
        if err == ERR_ANOTHER_PROTOCOL {
          lastError := 0;
          Disconnect(b);
          assert b.registry == registry0;
          NewId(net, s, b.tick);
          connected := OpenConnection(b);
          if !connected {
            return lastError;
          }
          var _ := OpenDevice(b);
          err := lastError;
          break;
        } else if err == ERR_RECV_TIMEOUT {
          DecrementServerProtocolVersion();
          Disconnect(b);
          assert b.registry == registry0;
        } else {
          break;
        }
      }
    }

    method ExecEnumerate(b: Bindy) returns (count: u32, data: bytes)
      modifies this`serverProtocolVersion, this`lastError, b`tick
      ensures var a := TryEnum(old(b.Seen(connId)), old(b.tick), old(serverProtocolVersion));
              && serverProtocolVersion == a.version && lastError == a.error && b.tick == a.tick
              && count == a.count && data == a.data
    {
      hide EnumRequest, DecodeIn;
      lastError := 0;
      count, data := 0, [];
      if !Supported(serverProtocolVersion) {
        lastError := ERR_NO_PROTOCOL;
        return;
      }
      var req := CreateEnumRequest(serverProtocolVersion);
      if |req| == 0 {
        lastError := ERR_NO_PROTOCOL;
        return;
      }
      var reply := SendAndReceive(b, req);
      if reply.None? {
        return;
      }
      var answerVersion := VersionOf(reply.value);
      if answerVersion != serverProtocolVersion {
        serverProtocolVersion := answerVersion;
        lastError := ERR_ANOTHER_PROTOCOL;
        return;
      }
      var good, pckt, result, records, error := GetData(serverProtocolVersion, reply.value, lastError);
      lastError := error;
      if good {
        count, data := result, records;
      }
    }

    /** The loop of the enumeration call. */
    method EnumerateInSomeVersion(b: Bindy, ghost s: State) returns (err: u32, count: u32, data: bytes)
      requires FreshIds(b.net) && Inv(b.net, s) && s.tick == b.tick && s.registry.Keys == b.registry.Keys
      requires connId == CONN_INVALID
      modifies this, b
      ensures var r := Enumerating(b.net, old(b.tick), old(serverProtocolVersion), LAST_VERSION);
              err == r.error && b.tick == r.tick && (err == 0 ==> count == r.count && data == r.data)
      ensures connId != CONN_INVALID ==> connId !in old(b.registry)
      ensures b.registry == if connId == CONN_INVALID then old(b.registry) else old(b.registry)[connId := this]
    {
      hide Enumerating, TryEnum, Inv, FreshIds;
      ghost var net, registry0 := b.net, b.registry;
      ghost var all := Enumerating(net, b.tick, serverProtocolVersion, LAST_VERSION);
      var ncount := LAST_VERSION;
      err, count, data := 0, 0, [];
      while ncount > 0
        invariant 0 <= ncount <= 3 && s.tick <= b.tick
        invariant b.registry == registry0 && connId == CONN_INVALID
        invariant ncount > 0 ==>
                    all.(tried := []) == Enumerating(net, b.tick, serverProtocolVersion, ncount).(tried := [])
        invariant ncount == 0 ==> err != 0 && all.error == err && all.tick == b.tick
      {
        EnumeratingStep(net, b.tick, serverProtocolVersion, ncount);
        ncount := ncount - 1;
        NewId(net, s, b.tick);
        lastError := 0;
        var connected := OpenConnection(b);
        if !connected {
          return lastError, count, data;
        }
        count, data := ExecEnumerate(b);
        err := lastError;
        if err == ERR_ANOTHER_PROTOCOL {
          lastError := 0;
          Disconnect(b);
          assert b.registry == registry0;
          NewId(net, s, b.tick);
          connected := OpenConnection(b);
          if !connected {
            return lastError, count, data;
          }
          count, data := ExecEnumerate(b);
          err := lastError;
          break;
        } else if err == ERR_RECV_TIMEOUT || err == ERR_NO_PROTOCOL {
          DecrementServerProtocolVersion();
          Disconnect(b);
          assert b.registry == registry0;
        } else {
          break;
        }
      }
    }

    /** Asks for the version in version 3, whatever the base version is. */
    method ExecVersionRequest(b: Bindy) returns (major: Option<u8>)
      modifies this`serverProtocolVersion, this`lastError, b`tick
      ensures b.tick == old(b.tick) + 1
      ensures (major, lastError) == VersionReply(old(b.Seen(connId)), old(b.tick))
    {
      hide DecodeReply, Head;
      lastError := 0;
      serverProtocolVersion := LAST_VERSION;
      var proto := new Protocol3(0);
      var req := proto.CreateClientRequest(PKT3_VER_REQ, NO_ID, 0, None);
      var reply := SendAndReceive(b, req);
      if reply.None? {
        return None;
      }
      var good, pckt, result, data, error := GetData(3, reply.value, lastError);
      lastError := error;
      if !good {
        lastError := ERR_NO_PROTOCOL;
        return None;
      }
      return Some(result % 256);
    }

    /** A rejected answer leaves it open whether `ok` is true. */
    method CloseConnectionDevice(b: Bindy) returns (ok: bool)
      modifies this`connId, this`lastError, b
      ensures if !Supported(serverProtocolVersion) && old(connId != CONN_INVALID && b.IsConnected(connId))
              then !ok && lastError == ERR_NO_PROTOCOL && connId == old(connId)
                   && b.registry == old(b.registry) && b.tick == old(b.tick)
              else if old(connId != CONN_INVALID && b.IsConnected(connId))
              then connId == CONN_INVALID && b.registry == old(b.registry) - {old(connId)} && b.tick == old(b.tick) + 1
                   && (var r := TryClose(b.net, old(b.tick), serverProtocolVersion, dev);
                       lastError == r.error && (r.done.Some? ==> ok == r.done.value))
              else !ok && lastError == ERR_NO_CONNECTION && connId == old(connId)
                   && b.registry == old(b.registry) && b.tick == old(b.tick)
    {
      hide CloseRequest, DecodeIn;
      lastError := 0;
      if connId == CONN_INVALID || !b.IsConnected(connId) {
        lastError := ERR_NO_CONNECTION;
        return false;
      }
      if !Supported(serverProtocolVersion) {
        lastError := ERR_NO_PROTOCOL;
        return false;
      }
      var req := CreateCloseRequest(serverProtocolVersion, dev);
      var reply := SendAndReceive(b, req);
      if reply.Some? {
        var good, pckt, result, data, error := GetData(serverProtocolVersion, reply.value, lastError);
        lastError := error;
        StoredOnlyWithError(serverProtocolVersion, reply.value);
        ok := Positive(serverProtocolVersion, pckt, result);
        if good && serverProtocolVersion == 3 && pckt == PKT3_ERROR_RESP {
          lastError := ERR_DEVICE_LOST;
        }
      } else {
        ok := false;
      }
      Disconnect(b);
    }

    /** A command to the device; the answer's version is not looked at. */
    method SendDataAndReceive(b: Bindy, data: bytes, respLen: u32) returns (resp: bytes)
      requires |data| < PAYLOAD_LIMIT - 8
      modifies this`lastError, b`tick
      ensures if connId == CONN_INVALID || !b.IsConnected(connId)
              then resp == [] && lastError == ERR_NO_CONNECTION && b.tick == old(b.tick)
              else if !Supported(serverProtocolVersion) then resp == [] && lastError == ERR_NO_PROTOCOL && b.tick == old(b.tick)
              else b.tick == old(b.tick) + 1
                   && (resp, lastError) == TryCommand(b.net, old(b.tick), serverProtocolVersion, dev, data, respLen)
    {
      hide CommandRequest, DecodeIn;
      lastError := 0;
      if connId == CONN_INVALID || !b.IsConnected(connId) {
        lastError := ERR_NO_CONNECTION;
        return [];
      }
      if !Supported(serverProtocolVersion) {
        lastError := ERR_NO_PROTOCOL;
        return [];
      }
      var req := CreateCommandRequest(serverProtocolVersion, dev, data, respLen);
      if |req| == 0 {
        CommandNotEmpty(serverProtocolVersion, dev, data, respLen);
        assert false;
      }
      var reply := SendAndReceive(b, req);
      if reply.None? {
        return [];
      }
      var good, pckt, result, out, error := GetData(serverProtocolVersion, reply.value, lastError);
      lastError := error;
      return if good then out else [];
    }
  }

  lemma CommandNotEmpty(v: u32, dev: DevId, data: bytes, respLen: u32)
    requires Supported(v) && |data| < SIZE_LIMIT
    ensures |CommandRequest(v, dev, data, respLen)| > 0
  {
    hide Be32;
  }

  lemma RequestNotEmpty(v: u32, dev: DevId)
    requires Supported(v)
    ensures |OpenRequest(v, dev)| > 0
  {
    hide Be32;
  }

  lemma StoredOnlyWithError(v: u32, b: Packet)
    requires Supported(v)
    ensures DecodeIn(v, b).Understood? && DecodeIn(v, b).stored.Some? ==> v == 3 && DecodeIn(v, b).pckt == PKT3_ERROR_RESP
  {
    hide TypeOf, U32At, BeValue, ReadRecords1, ReadRecords, LoopCount;
  }

  // ---------------------------------------------------------------- the public interface

  class Api {
    const bindy: Bindy
    var baseVersion: u32

    constructor (net: Network)
      requires FreshIds(net)
      ensures Valid() && Abs() == Start() && bindy.net == net && fresh(bindy)
    {
      bindy := new Bindy(net);
      baseVersion := 1;
      new;
      assert Abs() == Start();
    }

    ghost function Abs(): State
      reads this, bindy, bindy.registry.Values
    {
      State(bindy.tick, baseVersion, Infos(bindy.registry))
    }

    /** Every entry is a client that knows its connection, in a supported version; ids are old ones. */
    ghost predicate Valid()
      reads this, bindy, bindy.registry.Values
    {
      && FreshIds(bindy.net)
      && Inv(bindy.net, Abs())
      && forall id: u32 :: id in bindy.registry ==> bindy.registry[id].connId == id
    }

    method SetBaseProtocolVersion(major: u32, minor: u32, bugfix: u32) returns (err: u32)
      requires Valid()
      modifies this`baseVersion
      ensures Valid() && Abs() == Do(bindy.net, old(Abs()), SetBase(major, minor, bugfix))
      ensures err == if Supported(major) && minor == 0 && bugfix == 0 then 0 else ERR_NO_PROTOCOL
    {
      if !(Supported(major) && minor == 0 && bugfix == 0) {
        return ERR_NO_PROTOCOL;
      }
      baseVersion := major;
      return 0;
    }

    /** The id and version of the new connection, or an error and no connection. */
    method OpenDeviceConnection(uri: bytes, junk: DevId) returns (err: u32, conn: u32, version: u32)
      requires Valid()
      modifies bindy
      ensures Valid() && Abs() == Do(bindy.net, old(Abs()), OpenDevice(uri, junk))
      ensures var r := OpeningBy(bindy.net, old(Abs()), OpenDevice(uri, junk));
              err == r.error && conn == r.conn && version == (if err == 0 then r.version else 0)
      ensures forall id: u32 :: id in old(bindy.registry) ==>
                id in bindy.registry && bindy.registry[id] == old(bindy.registry[id])
      ensures conn != CONN_INVALID ==> conn in bindy.registry && fresh(bindy.registry[conn])
      ensures forall v: u32 ::
                Supported(v) && SpeaksOnly(bindy.net, old(bindy.tick), LAST_VERSION, ConnRegistries.DeviceOf(uri, junk), v) ==>
                  err == 0 && version == v && conn in Abs().registry && Abs().registry[conn].version == v
      ensures OpensAsAnswered(bindy.net, old(Abs()), ConnRegistries.DeviceOf(uri, junk), err, conn, version, Abs())
      ensures err != 0 ==> conn == CONN_INVALID && bindy.registry == old(bindy.registry)
    {
      hide Opening, ConnRegistries.DeviceOf, Inv, FreshIds, SpeaksOnly, OpensAsAnswered;
      ghost var net, s0, registry0 := bindy.net, Abs(), bindy.registry;
      CallKeepsInv(net, s0, OpenDevice(uri, junk));
      OpenCallAsAnswered(net, s0, uri, junk);
      ReachesServer(net, s0, uri, junk);
      var cl := new Client(baseVersion, ConnRegistries.DeviceOf(uri, junk));
      err := cl.OpenInSomeVersion(bindy, s0);
      if err != 0 {
        cl.Disconnect(bindy);
        assert bindy.registry == registry0;
        return err, CONN_INVALID, 0;
      }
      InfosAdd(registry0, cl.connId, cl);
      return 0, cl.connId, cl.serverProtocolVersion;
    }

    /** Closing an unknown connection is no error. */
    method CloseDeviceConnection(pconn: Option<u32>) returns (err: u32)
      requires Valid()
      modifies bindy, bindy.registry.Values
      ensures Valid()
      ensures err == if pconn.None? then ERR_NULLPTR_PARAM else 0
      ensures Abs() == if pconn.None? then old(Abs()) else Do(bindy.net, old(Abs()), CloseDevice(pconn.value))
      ensures forall id: u32 :: id in bindy.registry ==>
                id in old(bindy.registry) && bindy.registry[id] == old(bindy.registry[id])
    {
      hide Inv, FreshIds;
      if pconn.None? {
        return ERR_NULLPTR_PARAM;
      }
      var conn := pconn.value;
      ghost var s0, registry0 := Abs(), bindy.registry;
      CallKeepsInv(bindy.net, s0, CloseDevice(conn));
      if conn in bindy.registry {
        EntryOk(bindy.net, s0, conn);
        var cl := bindy.registry[conn];
        var _ := cl.CloseConnectionDevice(bindy);
        assert bindy.registry == registry0 - {conn};
        assert forall id: u32 :: id in bindy.registry ==> bindy.registry[id] != cl;
        assert Infos(bindy.registry) == old(Infos(bindy.registry)) - {conn};
      }
      return 0;
    }

    /** A command over a connection, and the bytes for the application, no more than it has room for. */
    method RequestResponse(pconn: Option<u32>, data: bytes, respLen: u32) returns (err: u32, resp: bytes)
      requires Valid() && |data| < PAYLOAD_LIMIT - 8
      modifies bindy`tick, bindy.registry.Values
      ensures Valid() && bindy.registry == old(bindy.registry)
      ensures Abs() == if pconn.None? then old(Abs()) else Do(bindy.net, old(Abs()), Command(pconn.value, data, respLen))
      ensures if pconn.None? then err == ERR_NULLPTR_PARAM && resp == []
              else if pconn.value !in old(bindy.registry) then err == ERR_NO_CONNECTION && resp == []
              else Supported(Abs().registry[pconn.value].version)
                   && CommandsAsAnswered(bindy.net, old(bindy.tick), Abs().registry[pconn.value], data, respLen, err, resp)
    {
      hide Inv, FreshIds, CommandsAsAnswered, TryCommand;
      if pconn.None? {
        return ERR_NULLPTR_PARAM, [];
      }
      var conn := pconn.value;
      ghost var s0 := Abs();
      CallKeepsInv(bindy.net, s0, Command(conn, data, respLen));
      if conn !in bindy.registry {
        return ERR_NO_CONNECTION, [];
      }
      EntryOk(bindy.net, s0, conn);
      CommandCallAsAnswered(bindy.net, bindy.tick, s0.registry[conn], data, respLen);
      var cl := bindy.registry[conn];
      var out := cl.SendDataAndReceive(bindy, data, respLen);
      assert Infos(bindy.registry) == old(Infos(bindy.registry));
      return cl.lastError, UpTo(out, respLen);
    }

    /** The devices of a server: their number, their decoded records, and their URIs as a text, which is
        printed here after the last attempt. The connection is always given up. */
    method EnumerateAdapterDevices(host: bytes) returns (err: u32, count: u32, data: bytes, text: bytes)
      requires Valid()
      modifies bindy
      ensures Valid() && Abs() == Do(bindy.net, old(Abs()), Enumerate) && bindy.registry == old(bindy.registry)
      ensures var r := Enumerating(bindy.net, old(bindy.tick), baseVersion, LAST_VERSION);
              err == r.error && (err == 0 ==> count == r.count && data == r.data)
      ensures forall v: u32 :: Supported(v) && ListsOnly(bindy.net, old(bindy.tick), LAST_VERSION, v) ==>
                (err == 0 <==> v != 2)
      ensures err == 0 ==> text == CallText(host, count, data)
      ensures ListsAsAnswered(bindy.net, old(bindy.tick), host, err, count, data, text)
    {
      hide Enumerating, Inv, FreshIds, ListsOnly, ListsAsAnswered, ListText;
      ghost var s0 := Abs();
      FindsLists(bindy.net, s0);
      BaseSupported(bindy.net, s0);
      EnumerateCallAsAnswered(bindy.net, bindy.tick, baseVersion, host);
      CallKeepsInv(bindy.net, s0, Enumerate);
      var cl := new Client(baseVersion, NO_ID);
      err, count, data := cl.EnumerateInSomeVersion(bindy, s0);
      text := [];
      if err == 0 && |data| < SIZE_LIMIT && (|host| + 40) * count < SIZE_LIMIT {
        text := EnumerationText(host, data, count);
      }
      cl.Disconnect(bindy);
      assert bindy.registry == old(bindy.registry);
    }

    /** The version the server reports, when it does; it may come with an error all the same. */
    method GetServerLastProtocolVersion() returns (err: u32, major: Option<u8>)
      requires Valid()
      modifies bindy
      ensures Valid() && Abs() == Do(bindy.net, old(Abs()), QueryVersion) && bindy.registry == old(bindy.registry)
      ensures var net, t := bindy.net, old(bindy.tick);
              (major, err) == if net.connect(t) == CONN_INVALID then (None, ERR_NO_CONNECTION) else VersionReply(net, t + 1)
      ensures VersionsAsAnswered(bindy.net, old(bindy.tick), err, major)
    {
      hide VersionReply, Inv, FreshIds, VersionsAsAnswered;
      ghost var s0 := Abs();
      QueryCallAsAnswered(bindy.net, bindy.tick);
      CallKeepsInv(bindy.net, s0, QueryVersion);
      NewId(bindy.net, s0, bindy.tick);
      var cl := new Client(baseVersion, NO_ID);
      var connected := cl.OpenConnection(bindy);
      if !connected {
        return cl.lastError, None;
      }
      major := cl.ExecVersionRequest(bindy);
      err := cl.lastError;
      cl.Disconnect(bindy);
      assert bindy.registry == old(bindy.registry);
    }

    /** The negotiated version of a connection; the base version for an unknown one. */
    method GetConnectionProtocolVersion(conn: u32) returns (major: u32)
      requires Valid()
      ensures major == if conn in Abs().registry then Abs().registry[conn].version else Abs().base
      ensures Supported(major)
    {
      if conn in bindy.registry {
        EntryOk(bindy.net, Abs(), conn);
        return bindy.registry[conn].serverProtocolVersion;
      }
      return baseVersion;
    }
  }

  lemma ReachesServer(net: Network, s: State, uri: bytes, junk: DevId)
    requires FreshIds(net) && Inv(net, s)
    ensures forall v: u32 :: Supported(v) && SpeaksOnly(net, s.tick, LAST_VERSION, DeviceOf(uri, junk), v) ==>
              var r := OpeningBy(net, s, OpenDevice(uri, junk)); r.error == 0 && r.version == v
  {
    hide SpeaksOnly, OpeningBy, DeviceOf, FreshIds, Inv;
    forall v: u32 | Supported(v) && SpeaksOnly(net, s.tick, LAST_VERSION, DeviceOf(uri, junk), v)
      ensures var r := OpeningBy(net, s, OpenDevice(uri, junk)); r.error == 0 && r.version == v
    {
      OpeningReachesServer(net, s, OpenDevice(uri, junk), v);
    }
  }

  lemma FindsLists(net: Network, s: State)
    requires Inv(net, s)
    ensures forall v: u32 :: Supported(v) && ListsOnly(net, s.tick, LAST_VERSION, v) ==>
              (Enumerating(net, s.tick, s.base, LAST_VERSION).error == 0 <==> v != 2)
  {
    hide ListsOnly, Enumerating, Given;
    forall v: u32 | Supported(v) && ListsOnly(net, s.tick, LAST_VERSION, v)
      ensures Enumerating(net, s.tick, s.base, LAST_VERSION).error == 0 <==> v != 2
    {
      EnumerationSucceedsIff(net, s.tick, s.base, v);
    }
  }

  lemma BaseSupported(net: Network, s: State)
    requires Inv(net, s)
    ensures Supported(s.base)
  {
  }

  lemma EntryOk(net: Network, s: State, id: u32)
    requires Inv(net, s) && id in s.registry
    ensures id != CONN_INVALID && Supported(s.registry[id].version)
  {
  }

  ghost function Infos(m: map<u32, Client>): map<u32, Info>
    reads m.Values
  {
    map id: u32 | id in m :: Info(m[id].serverProtocolVersion, m[id].dev)
  }

  lemma InfosAdd(m: map<u32, Client>, conn: u32, cl: Client)
    ensures Infos(m[conn := cl]) == Infos(m)[conn := Info(cl.serverProtocolVersion, cl.dev)]
  {
  }

  /** Ids of future connections are not in the registry. */
  lemma NewId(net: Network, s: State, j: nat)
    requires FreshIds(net) && Inv(net, s) && s.tick <= j
    ensures net.connect(j) == CONN_INVALID || net.connect(j) !in s.registry
  {
    if net.connect(j) in s.registry {
      GivenOnce(net, s.tick, j, net.connect(j));
    }
  }

  /** One round of the opening loop, without the list of versions tried. */
  lemma OpeningStep(net: Network, tick: nat, v: u32, dev: DevId, n: nat)
    requires n > 0
    ensures var r := Opening(net, tick, v, dev, n).(tried := []);
            var a := TryOpen(net, tick + 1, v, dev);
            if net.connect(tick) == CONN_INVALID then r == Outcome([], v, ERR_NO_CONNECTION, CONN_INVALID, tick + 1)
            else if a.error == ERR_ANOTHER_PROTOCOL then
              var id := net.connect(a.tick);
              var b := TryOpen(net, a.tick + 1, a.version, dev);
              r == if id == CONN_INVALID then Outcome([], a.version, ERR_NO_CONNECTION, CONN_INVALID, a.tick + 1)
                   else Outcome([], b.version, b.error, if b.error == 0 then id else CONN_INVALID, b.tick)
            else if a.error == ERR_RECV_TIMEOUT then
              a.version == v &&
              r == if n == 1 then Outcome([], Decrement(v), a.error, CONN_INVALID, a.tick)
                   else Opening(net, a.tick, Decrement(v), dev, n - 1).(tried := [])
            else r == Outcome([], a.version, a.error, if a.error == 0 then net.connect(tick) else CONN_INVALID, a.tick)
    ensures tick + 1 <= TryOpen(net, tick + 1, v, dev).tick
  {
    hide TryOpen;
    TryOpenFacts(net, tick + 1, v, dev);
  }

  /** One round of the enumeration loop, without the list of versions tried. */
  lemma EnumeratingStep(net: Network, tick: nat, v: u32, n: nat)
    requires n > 0
    ensures var r := Enumerating(net, tick, v, n).(tried := []);
            var a := TryEnum(net, tick + 1, v);
            if net.connect(tick) == CONN_INVALID then r == Enumeration([], ERR_NO_CONNECTION, 0, [], tick + 1)
            else if a.error == ERR_ANOTHER_PROTOCOL then
              var b := TryEnum(net, a.tick + 1, a.version);
              r == if net.connect(a.tick) == CONN_INVALID then Enumeration([], ERR_NO_CONNECTION, a.count, a.data, a.tick + 1)
                   else Enumeration([], b.error, b.count, b.data, b.tick)
            else if a.error == ERR_RECV_TIMEOUT || a.error == ERR_NO_PROTOCOL then
              r == if n == 1 then Enumeration([], a.error, a.count, a.data, a.tick)
                   else Enumerating(net, a.tick, Decrement(a.version), n - 1).(tried := [])
            else r == Enumeration([], a.error, a.count, a.data, a.tick)
    ensures tick + 1 <= TryEnum(net, tick + 1, v).tick
  {
    hide TryEnum;
    TryEnumTick(net, tick + 1, v);
  }
}
