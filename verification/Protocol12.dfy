/** Packets of versions 1 and 2, whose device ids are plain 32-bit serials. */
module Protocol12s {
  import opened Words
  import opened Bytes
  import opened MBufs
  import opened DevIds
  import opened Protocol3s

  const PKT1_RAW: u32 := 0x0
  const PKT1_ERROR_NTF: u32 := 0x4
  const PKT1_ENUM_REQ: u32 := 0x3
  const PKT1_ENUM_RESP: u32 := 0xFD
  const PKT2_CMD_REQ: u32 := 0x3
  const PKT2_CMD_RESP: u32 := 0xFD

  // The same numbers in both versions.
  const PKT_OPEN_REQ: u32 := 0x1
  const PKT_CLOSE_REQ: u32 := 0x2
  const PKT_OPEN_RESP: u32 := 0xFF
  const PKT_CLOSE_RESP: u32 := 0xFE

  const URPC_CID_SIZE := 4

  // ---------------------------------------------------------------- layouts

  function ShortHead(version: u32, pckt: u32, serial: u32): (r: bytes)
    ensures |r| == 24
  {
    Be32(version) + Be32(pckt) + Be32(0) + Be32(serial) + Be32(0) + Be32(0)
  }

  function ClientPacket1(pckt: u32, serial: u32, data: bytes): bytes {
    ShortHead(1, pckt, serial)
    + (if pckt == PKT1_RAW then data else if pckt == PKT1_ENUM_REQ then Be32(0) else [])
  }

  function ClientPacket2(pckt: u32, serial: u32, data: bytes): bytes {
    ShortHead(2, pckt, serial) + (if pckt == PKT2_CMD_REQ then data else [])
  }

  /** The command id comes first, then the length of the answer without its 4-byte status. */
  function CmdRequest2(serial: u32, data: bytes, respLen: u32): bytes {
    ClientPacket2(PKT2_CMD_REQ, serial,
      if |data| >= URPC_CID_SIZE then data[..4] + Be32((respLen - 4) % 0x1_0000_0000) + data[4..] else [])
  }

  function ServerPacket2(pckt: u32, val: u32, serial: u32, data: bytes): bytes {
    ShortHead(2, pckt, serial) + (Be32(val) + (if pckt == PKT2_CMD_RESP then data else []))
  }

  // ---------------------------------------------------------------- what decoders accept

  /** A truncated command is refused without an error code. */
  datatype Request2 = Refused2(code: Option<u32>) | Accepted2(pckt: u32, serial: u32, cid: bytes, data: bytes, respLen: u32)

  /** A command with fewer than four bytes of payload is read past its end, so that case is excluded. */
  predicate HasCid(b: bytes) {
    TypeOf(b) == PKT2_CMD_REQ && |b| >= 24 ==> |b| >= 28
  }

  function DecodeRequest2(b: bytes): Request2
    requires HasCid(b)
  {
    if TypeOf(b) == PKT2_CMD_REQ then
      if |b| < 24 then Refused2(Some(ERR_PCKT_FMT))
      else if |b| < 32 then Refused2(None)
      else Accepted2(PKT2_CMD_REQ, U32At(b, 12), b[24..28], b[32..], U32At(b, 28))
    else if TypeOf(b) in {PKT_OPEN_REQ, PKT_CLOSE_REQ} then
      if |b| < 16 then Refused2(Some(ERR_PCKT_FMT)) else Accepted2(TypeOf(b), U32At(b, 12), [], [], 0)
    else Refused2(Some(ERR_PCKT_INV))
  }

  /** Status responses are 28 bytes long; 20 bytes pass too, because the failed skip is not checked. */
  function DecodeStatus(b: bytes): Reply {
    if |b| == 28 || |b| == 20 then Understood(TypeOf(b), U32At(b, |b| - 4), [], None) else Rejected(ERR_PCKT_FMT)
  }

  function DecodeReply2(b: bytes): Reply {
    if |b| < 16 then Rejected(ERR_PCKT_FMT)
    else if TypeOf(b) == PKT2_CMD_RESP then
      if |b| >= 24 then Understood(PKT2_CMD_RESP, 0, b[24..], None) else Rejected(ERR_PCKT_FMT)
    else if TypeOf(b) in {PKT_OPEN_RESP, PKT_CLOSE_RESP} then DecodeStatus(b)
    else Rejected(ERR_PCKT_INV)
  }

  /** Version 1 records: a little-endian serial and 176 bytes that are skipped. */
  function ReadRecords1(c: Cursor, k: nat, serial: u32): (r: (Cursor, bytes))
    requires c.Ok()
    ensures r.0.Ok() && r.0.data == c.data && r.0.rdonly == c.rdonly && |r.1| == 12 * k
    decreases k
  {
    if k == 0 then (c, [])
    else
      var serial' := Cut32(ReadLe(c, 4, serial));
      var (c', rest) := ReadRecords1(Seek(Skip(c, 4), 176), k - 1, serial');
      (c', IdBytes(DevId(0, 0, 0, serial')) + rest)
  }

  function DecodeEnum1(b: bytes): Reply
    requires 16 <= |b| < SIZE_LIMIT
  {
    var (c, data) := ReadRecords1(Fresh(b).(pos := 16), LoopCount(U32At(b, 12)), 0);
    if c.Broken() then Rejected(ERR_PCKT_FMT) else Understood(PKT1_ENUM_RESP, U32At(b, 12), data, None)
  }

  function DecodeReply1(b: bytes): Reply
    requires |b| < SIZE_LIMIT
  {
    if |b| < 16 then Rejected(ERR_PCKT_FMT)
    else if TypeOf(b) == PKT1_ERROR_NTF then Rejected(ERR_DEVICE_LOST)
    else if TypeOf(b) == PKT1_RAW then
      if |b| >= 24 then Understood(PKT1_RAW, 0, b[24..], None) else Rejected(ERR_PCKT_FMT)
    else if TypeOf(b) in {PKT_OPEN_RESP, PKT_CLOSE_RESP} then DecodeStatus(b)
    else if TypeOf(b) == PKT1_ENUM_RESP then DecodeEnum1(b)
    else Rejected(ERR_PCKT_INV)
  }

  // ---------------------------------------------------------------- the protocol objects

  method PushShortHead(mbuf: MBuf, version: u32, pckt: u32, serial: u32)
    requires mbuf.Valid() && !mbuf.rdonly && mbuf.pos == 0 && mbuf.data.Length >= 24
    modifies mbuf, mbuf.data
    ensures mbuf.Valid() && !mbuf.rdonly && mbuf.pos == 24 && mbuf.data[..24] == ShortHead(version, pckt, serial)
  {
    hide Be32;
    Push32(mbuf, version);
    Push32(mbuf, pckt);
    Push32(mbuf, 0);
    Push32(mbuf, serial);
    Push32(mbuf, 0);
    Push32(mbuf, 0);
  }

  /** Version, type, timeout and serial: 16 bytes, or at most four failures. */
  method ReadShortHeader(cmd: MBuf) returns (pckt: u32, serial: u32)
    requires cmd.Valid() && cmd.pos == 0 && cmd.fails == 0 && cmd.rdonly
    modifies cmd
    ensures cmd.Valid() && cmd.rdonly && pckt == TypeOf(cmd.data[..])
    ensures if cmd.data.Length >= 16
            then cmd.pos == 16 && cmd.fails == 0 && serial == U32At(cmd.data[..], 12)
            else 1 <= cmd.fails <= 4
  {
    hide BeValue;
    var _ := cmd.Read(4, false, 0);
    pckt := cmd.Read(4, false, 0);
    var _ := cmd.Read(4, false, 0);
    serial := cmd.Read(4, false, 0);
  }

  class Protocol2 {
    var resErr: u32
    var error: u32

    constructor (error: u32)
      ensures this.error == error
    {
      this.error := error;
      resErr := 0;
    }

    method CreateClientRequest(pckt: u32, serial: u32, data: Option<bytes>) returns (r: bytes)
      requires data.Some? ==> |data.value| < PAYLOAD_LIMIT
      ensures r == ClientPacket2(pckt, serial, if data.Some? then data.value else [])
    {
      hide ShortHead;
      var mbuf := new MBuf.Zeroed(64 + (if data.Some? then |data.value| else 0));
      PushShortHead(mbuf, 2, pckt, serial);
      if pckt == PKT2_CMD_REQ && data.Some? {
        PushBytes(mbuf, data.value);
      }
      r := mbuf.ToVector();
    }

    method CreateCmdRequest(serial: u32, data: bytes, respLen: u32) returns (r: bytes)
      requires |data| < PAYLOAD_LIMIT - 4
      ensures r == CmdRequest2(serial, data, respLen)
    {
      hide ShortHead, Be32;
      var dataAndLength := [];
      if |data| >= URPC_CID_SIZE {
        dataAndLength := data[..4];
        dataAndLength := Protocol3.AddUint32(dataAndLength, (respLen - 4) % 0x1_0000_0000);
        dataAndLength := dataAndLength + data[4..];
      }
      r := CreateClientRequest(PKT2_CMD_REQ, serial, Some(dataAndLength));
    }

    method CreateServerResponse(pckt: u32, val: u32, serial: u32, data: Option<bytes>) returns (r: bytes)
      requires data.Some? ==> |data.value| < PAYLOAD_LIMIT
      ensures r == ServerPacket2(pckt, val, serial, if data.Some? then data.value else [])
    {
      hide ShortHead, Be32;
      var mbuf := new MBuf.Zeroed(64 + (if data.Some? then |data.value| else 0));
      PushShortHead(mbuf, 2, pckt, serial);
      ghost var head := mbuf.data[..24];
      Push32(mbuf, val);
      if pckt == PKT2_CMD_RESP && data.Some? {
        PushBytes(mbuf, data.value);
        assert mbuf.data[..mbuf.pos] == head + (Be32(val) + data.value);
      }
      r := mbuf.ToVector();
    }

    method GetDataFromRequest(cmd: MBuf) returns (ok: bool, cid: bytes, data: bytes, serial: u32, respLen: u32)
      requires cmd.Valid() && cmd.pos == 0 && cmd.fails == 0 && cmd.rdonly && HasCid(cmd.data[..])
      modifies this, cmd
      ensures match DecodeRequest2(cmd.data[..])
              case Refused2(e) => !ok && error == (if e.Some? then e.value else old(error))
              case Accepted2(_, s, c, bs, n) =>
                ok && serial == s && cid == c && data == bs && respLen == n && error == old(error)
    {
      hide BeValue, TypeOf, Be32;
      data, cid, respLen, resErr := [], [], 0, 0;
      var pckt;
      pckt, serial := ReadShortHeader(cmd);
      if pckt == PKT2_CMD_REQ {
        var _ := cmd.MSeek(8);
        if cmd.WasBroken() {
          error := ERR_PCKT_FMT;
          return false, cid, data, serial, respLen;
        }
        cid := cmd.data[cmd.pos..cmd.pos + URPC_CID_SIZE];
        var _ := cmd.MSeek(URPC_CID_SIZE);
        var r := cmd.Read(4, false, 0);
        data := cmd.RestToVector();
        resErr := r;
        if cmd.WasBroken() {
          return false, cid, data, serial, respLen;
        }
      } else if pckt != PKT_OPEN_REQ && pckt != PKT_CLOSE_REQ {
        error := ERR_PCKT_INV;
        return false, cid, data, serial, respLen;
      }
      respLen := resErr;
      if cmd.WasBroken() {
        error := ERR_PCKT_FMT;
        return false, cid, data, serial, respLen;
      }
      return true, cid, data, serial, respLen;
    }

    method GetDataFromBindyCallback(cmd: MBuf) returns (ok: bool, data: bytes, pckt: u32)
      requires cmd.Valid() && cmd.pos == 0 && cmd.fails == 0 && cmd.rdonly
      modifies this, cmd
      ensures match DecodeReply2(cmd.data[..])
              case Rejected(e) => !ok && error == e
              case Understood(p, r, bs, _) => ok && pckt == p && resErr == r && data == bs && error == old(error)
    {
      hide BeValue, TypeOf, Be32;
      data, resErr := [], 0;
      var serial;
      pckt, serial := ReadShortHeader(cmd);
      if cmd.WasBroken() {
        error := ERR_PCKT_FMT;
        return false, data, pckt;
      }
      if pckt == PKT2_CMD_RESP {
        var _ := cmd.MSeek(8);
        if cmd.WasBroken() {
          error := ERR_PCKT_FMT;
          return false, data, pckt;
        }
        data := cmd.RestToVector();
        return true, data, pckt;
      } else if pckt == PKT_OPEN_RESP || pckt == PKT_CLOSE_RESP {
        var _ := cmd.MSeek(8);
        var len := cmd.RestOfSize();
        if len != 4 {
          error := ERR_PCKT_FMT;
          return false, data, pckt;
        }
        resErr := cmd.Read(4, false, 0);
        return true, data, pckt;
      } else {
        error := ERR_PCKT_INV;
        return false, data, pckt;
      }
    }
  }

  class Protocol1 {
    var resErr: u32
    var error: u32

    constructor (error: u32)
      ensures this.error == error
    {
      this.error := error;
      resErr := 0;
    }

    method CreateClientRequest(pckt: u32, serial: u32, data: Option<bytes>) returns (r: bytes)
      requires data.Some? ==> |data.value| < PAYLOAD_LIMIT
      ensures r == ClientPacket1(pckt, serial, if data.Some? then data.value else [])
    {
      hide ShortHead, Be32;
      var mbuf := new MBuf.Zeroed(64 + (if data.Some? then |data.value| else 0));
      PushShortHead(mbuf, 1, pckt, serial);
      if pckt == PKT1_RAW {
        if data.Some? {
          PushBytes(mbuf, data.value);
        }
      } else if pckt == PKT1_ENUM_REQ {
        Push32(mbuf, 0);
      }
      r := mbuf.ToVector();
    }

    /** Version 1 leaves the length of the answer to the device. */
    method CreateCmdRequest(serial: u32, data: Option<bytes>, respLen: u32) returns (r: bytes)
      requires data.Some? ==> |data.value| < PAYLOAD_LIMIT
      ensures r == ClientPacket1(PKT1_RAW, serial, if data.Some? then data.value else [])
    {
      r := CreateClientRequest(PKT1_RAW, serial, data);
    }

    method GetDataFromBindyCallback(cmd: MBuf) returns (ok: bool, data: bytes, pckt: u32)
      requires cmd.Valid() && cmd.pos == 0 && cmd.fails == 0 && cmd.rdonly
      modifies this, cmd
      ensures match DecodeReply1(cmd.data[..])
              case Rejected(e) => !ok && error == e
              case Understood(p, r, bs, _) => ok && pckt == p && resErr == r && data == bs && error == old(error)
    {
      hide BeValue, TypeOf, Be32, ReadRecords1;
      data, resErr := [], 0;
      var serial;
      pckt, serial := ReadShortHeader(cmd);
      if cmd.WasBroken() {
        error := ERR_PCKT_FMT;
        return false, data, pckt;
      }
      if pckt == PKT1_ERROR_NTF {
        error := ERR_DEVICE_LOST;
        return false, data, pckt;
      } else if pckt == PKT1_RAW {
        var _ := cmd.MSeek(8);
        if cmd.WasBroken() {
          error := ERR_PCKT_FMT;
          return false, data, pckt;
        }
        data := cmd.RestToVector();
        return true, data, pckt;
      } else if pckt == PKT_OPEN_RESP || pckt == PKT_CLOSE_RESP {
        var _ := cmd.MSeek(8);
        var len := cmd.RestOfSize();
        if len != 4 {
          error := ERR_PCKT_FMT;
          return false, data, pckt;
        }
        resErr := cmd.Read(4, false, 0);
        return true, data, pckt;
      } else if pckt == PKT1_ENUM_RESP {
        ok, data := GetEnumData(cmd);
      } else {
        error := ERR_PCKT_INV;
        return false, data, pckt;
      }
    }

    method GetEnumData(cmd: MBuf) returns (ok: bool, data: bytes)
      requires cmd.Valid() && cmd.pos == 16 && cmd.fails == 0 && cmd.rdonly && cmd.data.Length >= 16
      modifies this, cmd
      ensures match DecodeEnum1(cmd.data[..])
              case Rejected(e) => !ok && error == e
              case Understood(_, r, bs, _) => ok && resErr == r && data == bs && error == old(error)
    {
      hide BeValue, ReadRecords1, LoopCount;
      var _ := cmd.MSeek(-4);
      var count := cmd.Read(4, false, 0);
      resErr := count;
      assert cmd.View() == Fresh(cmd.data[..]).(pos := 16);
      data := GetRecords(cmd, count);
      if cmd.WasBroken() {
        error := ERR_PCKT_FMT;
      }
      ok := !cmd.WasBroken();
    }

    method GetRecords(cmd: MBuf, count: u32) returns (data: bytes)
      requires cmd.Valid()
      modifies cmd
      ensures cmd.Valid() && cmd.View() == ReadRecords1(old(cmd.View()), LoopCount(count), 0).0
      ensures data == ReadRecords1(old(cmd.View()), LoopCount(count), 0).1
    {
      hide ReadLe, IdBytes, Skip, Seek;
      data := [];
      var serial: u32 := 0;
      var n := ToInt32(count);
      ghost var c, k := cmd.View(), LoopCount(count);
      var i := 0;
      while i < n
        invariant cmd.Valid() && 0 <= i <= k
        invariant data + ReadRecords1(cmd.View(), k - i, serial).1 == ReadRecords1(c, k, 0).1
        invariant ReadRecords1(cmd.View(), k - i, serial).0 == ReadRecords1(c, k, 0).0
      {
        ghost var rest := ReadRecords1(cmd.View(), k - i, serial).1;
        serial := cmd.Read(4, true, serial);
        data := data + IdBytes(DevId(0, 0, 0, serial));
        var _ := cmd.MSeek(180 - 4);
        assert rest == IdBytes(DevId(0, 0, 0, serial)) + ReadRecords1(cmd.View(), k - i - 1, serial).1;
        i := i + 1;
      }
      assert ReadRecords1(cmd.View(), 0, serial) == (cmd.View(), []);
    }
  }

  // ---------------------------------------------------------------- laws

  lemma ShortHeadFields(version: u32, pckt: u32, serial: u32, tail: bytes)
    ensures var b := ShortHead(version, pckt, serial) + tail;
            TypeOf(b) == pckt && U32At(b, 12) == serial && b[24..] == tail
  {
    hide Be32, U32At;
    var b := ShortHead(version, pckt, serial) + tail;
    assert b[4..8] == Be32(pckt) && b[12..16] == Be32(serial);
    U32AtIs(b, 4, pckt);
    U32AtIs(b, 12, serial);
  }

  /** A version 1 command carries its type, the serial number, and behind the head its bytes. */
  lemma RawRequestFields(serial: u32, data: bytes)
    ensures var b := ClientPacket1(PKT1_RAW, serial, data);
            |b| == 24 + |data| && TypeOf(b) == 0 && U32At(b, 12) == serial && b[24..] == data
  {
    hide Be32, U32At, ShortHead;
    ShortHeadFields(1, PKT1_RAW, serial, data);
  }

  /** Different version 1 commands are encoded differently. */
  lemma RawRequestsAreDistinct(serial: u32, data: bytes, serial': u32, data': bytes)
    requires ClientPacket1(PKT1_RAW, serial, data) == ClientPacket1(PKT1_RAW, serial', data')
    ensures serial == serial' && data == data'
  {
    hide ClientPacket1;
    RawRequestFields(serial, data);
    RawRequestFields(serial', data');
  }

  /** What a version 1 device answers to a command is what the client reads. */
  lemma RawResponseRoundTrip(serial: u32, data: bytes)
    requires |data| < PAYLOAD_LIMIT
    ensures DecodeReply1(ShortHead(1, PKT1_RAW, serial) + data) == Understood(PKT1_RAW, 0, data, None)
  {
    hide Be32, U32At, ShortHead;
    ShortHeadFields(1, PKT1_RAW, serial, data);
  }

  /** Different version 2 commands are encoded differently. */
  lemma Commands2AreDistinct(serial: u32, data: bytes, respLen: u32, serial': u32, data': bytes, respLen': u32)
    requires |data| >= 4 && |data'| >= 4 && CmdRequest2(serial, data, respLen) == CmdRequest2(serial', data', respLen')
    ensures serial == serial' && data == data' && respLen == respLen'
  {
    hide CmdRequest2, DecodeRequest2;
    Command2RoundTrip(serial, data, respLen);
    Command2RoundTrip(serial', data', respLen');
    assert (respLen - 4) % 0x1_0000_0000 == (respLen' - 4) % 0x1_0000_0000;
  }

  /** A version 2 command of at least four bytes reaches the server split into command id and rest,
      with the response length reduced by four modulo 2^32. */
  lemma Command2RoundTrip(serial: u32, data: bytes, respLen: u32)
    requires |data| >= 4
    ensures var b := CmdRequest2(serial, data, respLen);
            && HasCid(b)
            && DecodeRequest2(b) == Accepted2(PKT2_CMD_REQ, serial, data[..4], data[4..], (respLen - 4) % 0x1_0000_0000)
            && DecodeRequest2(b).cid + DecodeRequest2(b).data == data
  {
    hide Be32, U32At, ShortHead;
    var n: u32 := (respLen - 4) % 0x1_0000_0000;
    var head := ShortHead(2, PKT2_CMD_REQ, serial);
    var b := CmdRequest2(serial, data, respLen);
    ShortHeadFields(2, PKT2_CMD_REQ, serial, data[..4] + Be32(n) + data[4..]);
    assert b == head + (data[..4] + Be32(n) + data[4..]);
    assert b[28..32] == Be32(n) && b[24..28] == data[..4] && b[32..] == data[4..];
    U32AtIs(b, 28, n);
  }

  /** The fields of a version 2 response that come before its value. */
  lemma ResponseFields2(pckt: u32, val: u32, serial: u32, data: bytes)
    ensures var b := ServerPacket2(pckt, val, serial, data);
            |b| >= 28 && TypeOf(b) == pckt && U32At(b, 12) == serial && b[24..28] == Be32(val)
  {
    hide Be32, U32At, ShortHead;
    ShortHeadFields(2, pckt, serial, Be32(val) + (if pckt == PKT2_CMD_RESP then data else []));
  }

  /** A version 2 command response reaches the client as the 4-byte status followed by the payload. */
  lemma CommandResponse2RoundTrip(serial: u32, val: u32, data: bytes)
    ensures DecodeReply2(ServerPacket2(PKT2_CMD_RESP, val, serial, data))
         == Understood(PKT2_CMD_RESP, 0, Be32(val) + data, None)
  {
    hide Be32, U32At, ShortHead;
    ShortHeadFields(2, PKT2_CMD_RESP, serial, Be32(val) + data);
  }

  lemma StatusResponse2RoundTrip(pckt: u32, serial: u32, val: u32)
    requires pckt in {PKT_OPEN_RESP, PKT_CLOSE_RESP}
    ensures DecodeReply2(ServerPacket2(pckt, val, serial, [])) == Understood(pckt, val, [], None)
    ensures DecodeReply1(ServerPacket2(pckt, val, serial, [])) == Understood(pckt, val, [], None)
  {
    hide Be32, U32At, ShortHead;
    var b := ServerPacket2(pckt, val, serial, []);
    ShortHeadFields(2, pckt, serial, Be32(val) + []);
    assert b[24..28] == Be32(val);
    U32AtIs(b, 24, val);
  }

  lemma PlainRequest2RoundTrip(pckt: u32, serial: u32)
    requires pckt in {PKT_OPEN_REQ, PKT_CLOSE_REQ}
    ensures HasCid(ClientPacket2(pckt, serial, []))
    ensures DecodeRequest2(ClientPacket2(pckt, serial, [])) == Accepted2(pckt, serial, [], [], 0)
  {
    hide Be32, U32At, ShortHead;
    ShortHeadFields(2, pckt, serial, []);
  }

  // ---------------------------------------------------------------- version 1 enumeration

  /** The number of failing operations when `k` records are read from `m` bytes: a record that does not
      fit fails its skip, and also its read once fewer than four bytes are left. */
  function MissingOps1(m: nat, k: nat): nat {
    if 180 * k <= m then 0
    else
      var j := k - m / 180;
      j + (if j > m % 180 / 4 then j - m % 180 / 4 else 0)
  }

  lemma Missing1Step(m: nat, k: nat)
    requires k > 0
    ensures m >= 180 ==> MissingOps1(m, k) == MissingOps1(m - 180, k - 1)
    ensures 4 <= m < 180 ==> MissingOps1(m, k) == 1 + MissingOps1(m - 4, k - 1)
    ensures m < 4 ==> MissingOps1(m, k) == 2 + MissingOps1(m, k - 1)
  {
    if m >= 180 {
      assert (m - 180) / 180 == m / 180 - 1 && (m - 180) % 180 == m % 180;
    } else {
      Missing1Short(m, k);
      if m >= 4 {
        Missing1Short(m - 4, k - 1);
        assert (m - 4) / 4 == m / 4 - 1;
      } else {
        Missing1Short(m, k - 1);
        assert m / 4 == 0;
      }
    }
  }

  /** The count when not even one record fits. */
  lemma Missing1Short(m: nat, k: nat)
    requires m < 180
    ensures MissingOps1(m, k) == if k > m / 4 then k + (k - m / 4) else k
  {
    assert m / 180 == 0 && m % 180 == m;
    if 180 * k <= m {
      assert k == 0;
    }
  }

  lemma {:induction false} Records1Count(c: Cursor, k: nat, serial: u32)
    requires c.Ok()
    ensures ReadRecords1(c, k, serial).0.fails == c.fails + MissingOps1(c.Rest(), k)
    decreases k
  {
    hide IdBytes, ReadLe;
    if k > 0 {
      Missing1Step(c.Rest(), k);
      Records1Count(Seek(Skip(c, 4), 176), k - 1, Cut32(ReadLe(c, 4, serial)));
    }
  }

  /** The serials of the records that start at position `i`. */
  function Serials(b: bytes, i: nat, k: nat): (r: seq<DevId>)
    requires i + 180 * k <= |b|
    ensures |r| == k
    decreases k
  {
    if k == 0 then [] else [DevId(0, 0, 0, Cut32(LeValue(b[i..i + 4])))] + Serials(b, i + 180, k - 1)
  }

  lemma {:induction false} Records1ThatFit(c: Cursor, k: nat, serial: u32)
    requires c.Ok() && c.Rest() >= 180 * k
    ensures ReadRecords1(c, k, serial) == (c.(pos := c.pos + 180 * k), ListBytes(Serials(c.data, c.pos, k)))
    decreases k
  {
    hide IdBytes, LeValue;
    if k > 0 {
      var c' := Seek(Skip(c, 4), 176);
      assert c' == c.(pos := c.pos + 180);
      Records1ThatFit(c', k - 1, Cut32(ReadLe(c, 4, serial)));
      var ds := Serials(c.data, c.pos, k);
      assert ds[1..] == Serials(c.data, c.pos + 180, k - 1);
      assert ReadRecords1(c, k, serial).1
          == IdBytes(ds[0]) + ReadRecords1(c', k - 1, Cut32(ReadLe(c, 4, serial))).1;
    } else {
      assert ReadRecords1(c, k, serial) == (c, []);
    }
  }

  /** Exactly when a version 1 enumeration is accepted; below 128 records, exactly when all are there,
      and then the client gets the ids of the serials found. */
  lemma Enum1AcceptedIff(b: bytes)
    requires 16 <= |b| < SIZE_LIMIT
    ensures var k := LoopCount(U32At(b, 12));
            && (DecodeEnum1(b).Understood? <==> MissingOps1(|b| - 16, k) % 256 == 0)
            && (k < 128 ==> (DecodeEnum1(b).Understood? <==> 16 + 180 * k <= |b|))
            && (16 + 180 * k <= |b| ==> DecodeEnum1(b).Understood? && DecodeEnum1(b).data == ListBytes(Serials(b, 16, k)))
  {
    hide ReadRecords1, U32At, LoopCount, ListBytes, MissingOps1;
    var c, k := Fresh(b).(pos := 16), LoopCount(U32At(b, 12));
    Records1Count(c, k, 0);
    Missing1Bounds(|b| - 16, k);
    if 16 + 180 * k <= |b| {
      Records1ThatFit(c, k, 0);
    }
  }

  lemma Missing1Bounds(m: nat, k: nat)
    ensures m < 180 * k ==> 1 <= MissingOps1(m, k) <= 2 * k
    ensures 180 * k <= m ==> MissingOps1(m, k) == 0
  {
  }
}
