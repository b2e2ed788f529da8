/**
 Version 3 packets: what the client and the server build, and what each side makes of arbitrary
 bytes. Packets are specified by their layout and decoders by the set of byte strings they
 accept; the builders and decoders below work field by field on an `MBuf`, as the source does.
*/
module Protocol3s {
  import opened Words
  import opened Bytes
  import opened MBufs
  import opened DevIds

  const ERR_PCKT_FMT: u32 := 12
  const ERR_PCKT_INV: u32 := 13
  const ERR_DEVICE_LOST: u32 := 0xfffb

  const PKT3_OPEN_REQ: u32 := 0x1
  const PKT3_CLOSE_REQ: u32 := 0x2
  const PKT3_CMD_REQ: u32 := 0x3
  const PKT3_ENUM_REQ: u32 := 0x4
  const PKT3_VER_REQ: u32 := 0x5
  const PKT3_ERROR_RESP: u32 := 0xFA
  const PKT3_VER_RESP: u32 := 0xFB
  const PKT3_ENUM_RESP: u32 := 0xFC
  const PKT3_CMD_RESP: u32 := 0xFD
  const PKT3_CLOSE_RESP: u32 := 0xFE
  const PKT3_OPEN_RESP: u32 := 0xFF

  /** Room that the builders leave beside the payload. */
  const PAYLOAD_LIMIT := SIZE_LIMIT - 64

  // ---------------------------------------------------------------- layouts

  function Head(pckt: u32, tmout: u32, dev: DevId): (r: bytes)
    ensures |r| == 32
  {
    Be32(3) + Be32(pckt) + Be32(tmout) + IdBytes(dev) + Be32(0) + Be32(0)
  }

  function ClientPacket(pckt: u32, dev: DevId, tmout: u32, data: bytes): bytes {
    Head(pckt, tmout, if pckt in {PKT3_OPEN_REQ, PKT3_CLOSE_REQ, PKT3_CMD_REQ} then dev else NO_ID)
    + (if pckt == PKT3_CMD_REQ then data else [])
  }

  function CmdRequest(dev: DevId, data: bytes, respLen: u32): bytes
    requires |data| < SIZE_LIMIT
  {
    ClientPacket(PKT3_CMD_REQ, dev, 0, Be32(|data|) + data + Be32(respLen))
  }

  function ServerPayload(pckt: u32, val: u32, data: bytes): bytes
    requires |data| < PAYLOAD_LIMIT
  {
    if pckt in {PKT3_OPEN_RESP, PKT3_CLOSE_RESP, PKT3_ERROR_RESP} then Be32(val)
    else if pckt == PKT3_CMD_RESP then Be32(|data|) + data
    else if pckt == PKT3_ENUM_RESP then Be32(|data| / 12) + data + Be32(0)
    else if pckt == PKT3_VER_RESP then Be32(3)
    else []
  }

  function ServerPacket(pckt: u32, val: u32, dev: DevId, data: bytes): bytes
    requires |data| < PAYLOAD_LIMIT
  {
    Head(pckt, 0, dev) + ServerPayload(pckt, val, data)
  }

  function EnumResponse(devs: seq<DevId>): bytes
    requires 12 * |devs| < PAYLOAD_LIMIT
  {
    ServerPacket(PKT3_ENUM_RESP, 0, NO_ID, ListBytes(devs))
  }

  // ---------------------------------------------------------------- what decoders accept

  /** The packet type both sides see; a buffer that is too short reads as type 0. */
  function TypeOf(b: bytes): u32 {
    if |b| >= 8 then U32At(b, 4) else 0
  }

  datatype Request = Refused(error: u32) | Accepted(pckt: u32, dev: DevId, data: bytes, respLen: u32)

  /** The server's view of a request. */
  function DecodeRequest(b: bytes): Request {
    if TypeOf(b) !in {PKT3_OPEN_REQ, PKT3_CLOSE_REQ, PKT3_CMD_REQ, PKT3_ENUM_REQ, PKT3_VER_REQ} then
      Refused(ERR_PCKT_INV)
    else if TypeOf(b) == PKT3_CMD_REQ then
      if |b| >= 40 && |b| == 40 + U32At(b, 32)
      then Accepted(PKT3_CMD_REQ, IdAt(b, 12), b[36..|b| - 4], U32At(b, |b| - 4))
      else Refused(ERR_PCKT_FMT)
    else if |b| >= 28 then Accepted(TypeOf(b), IdAt(b, 12), [], U32At(b, 24))
    else Refused(ERR_PCKT_FMT)
  }

  /** `stored` is an error code that a decoder leaves for the caller although the packet is understood. */
  datatype Reply =
    | Rejected(error: u32)
    | Understood(pckt: u32, result: u32, data: bytes, stored: Option<u32>)

  /** Reading `k` device records: the cursor afterwards and the bytes handed on. */
  function ReadRecords(c: Cursor, k: nat, d: DevId): (r: (Cursor, bytes))
    requires c.Ok()
    ensures r.0.Ok() && r.0.data == c.data && r.0.rdonly == c.rdonly && |r.1| == 12 * k
    decreases k
  {
    if k == 0 then (c, [])
    else
      var d' := ReadId(c, d);
      var (c', rest) := ReadRecords(SkipId(c), k - 1, d');
      (c', IdBytes(d') + rest)
  }

  /** A `for` loop up to `(int)size` does not run for sizes of 2^31 and more. */
  function LoopCount(size: u32): nat {
    if ToInt32(size) < 0 then 0 else ToInt32(size)
  }

  /** The client's view of an enumeration response, after the first 24 bytes: skip 8, read the
      number of records, read the records. */
  function DecodeEnum(b: bytes): Reply
    requires 24 <= |b| < SIZE_LIMIT
  {
    var c0 := Seek(Fresh(b).(pos := 24), 8);
    var size := Cut32(ReadBe(c0, 4, 0));
    var (c, data) := ReadRecords(Skip(c0, 4), LoopCount(size), NO_ID);
    if c.Broken() then Rejected(ERR_PCKT_FMT) else Understood(PKT3_ENUM_RESP, size, data, None)
  }

  /** The client's view of any packet. Status responses are 36 bytes long; a packet of 28 bytes
      passes too, because the failed skip is not checked and 4 bytes are left. */
  function DecodeReply(b: bytes): Reply
    requires |b| < SIZE_LIMIT
  {
    if |b| < 24 then Rejected(ERR_PCKT_FMT)
    else if TypeOf(b) == PKT3_CMD_RESP then
      if |b| >= 36 && |b| == 36 + U32At(b, 32) then Understood(PKT3_CMD_RESP, 0, b[36..], None)
      else Rejected(ERR_PCKT_FMT)
    else if TypeOf(b) in {PKT3_OPEN_RESP, PKT3_CLOSE_RESP, PKT3_VER_RESP, PKT3_ERROR_RESP} then
      if |b| == 36 || |b| == 28 then
        var r := U32At(b, |b| - 4);
        Understood(TypeOf(b), r, [], if TypeOf(b) == PKT3_ERROR_RESP then Some(r) else None)
      else Rejected(ERR_PCKT_FMT)
    else if TypeOf(b) == PKT3_ENUM_RESP then DecodeEnum(b)
    else Rejected(ERR_PCKT_FMT)
  }

  // ---------------------------------------------------------------- the protocol object

  class Protocol3 {
    var resErr: u32
    var error: u32

    constructor (error: u32)
      ensures this.error == error
    {
      this.error := error;
      resErr := 0;
    }

    method CreateClientRequest(pckt: u32, dev: DevId, tmout: u32, data: Option<bytes>) returns (r: bytes)
      requires data.Some? ==> |data.value| < PAYLOAD_LIMIT
      ensures r == ClientPacket(pckt, dev, tmout, if data.Some? then data.value else [])
    {
      hide Be32, Be16, IdBytes;
      var mbuf := new MBuf.Zeroed(64 + (if data.Some? then |data.value| else 0));
      Push32(mbuf, 3);
      Push32(mbuf, pckt);
      Push32(mbuf, tmout);
      if pckt == PKT3_CLOSE_REQ || pckt == PKT3_OPEN_REQ || pckt == PKT3_CMD_REQ {
        PushId(mbuf, dev);
        Push32(mbuf, 0);
        Push32(mbuf, 0);
        assert mbuf.data[..mbuf.pos] == Head(pckt, tmout, dev);
        hide Head;
        if pckt == PKT3_CMD_REQ && data.Some? {
          PushBytes(mbuf, data.value);
        }
      } else {
        PushFiveZeros(mbuf);
        assert mbuf.data[..mbuf.pos] == Head(pckt, tmout, NO_ID);
      }
      hide Head;
      r := mbuf.ToVector();
    }

    static method PushFiveZeros(mbuf: MBuf)
      requires mbuf.Valid() && !mbuf.rdonly && mbuf.data.Length - mbuf.pos >= 20
      modifies mbuf, mbuf.data
      ensures mbuf.Valid() && !mbuf.rdonly && mbuf.pos == old(mbuf.pos) + 20
      ensures mbuf.data[..mbuf.pos] == old(mbuf.data[..mbuf.pos]) + (IdBytes(NO_ID) + Be32(0) + Be32(0))
    {
      hide Be32, Be16, IdBytes;
      ghost var before := mbuf.data[..mbuf.pos];
      Push32(mbuf, 0);
      Push32(mbuf, 0);
      Push32(mbuf, 0);
      Push32(mbuf, 0);
      Push32(mbuf, 0);
      ZeroId();
      assert mbuf.data[..mbuf.pos] == before + (IdBytes(NO_ID) + Be32(0) + Be32(0));
    }

    static lemma ZeroId()
      ensures IdBytes(NO_ID) == Be32(0) + Be32(0) + Be32(0)
      ensures Be16(0) + Be16(0) == Be32(0)
    {
      assert Be(0, 1) == [0];
      assert Be(0, 2) == [0, 0];
      assert Be(0, 3) == [0, 0, 0];
      assert Be(0, 4) == [0, 0, 0, 0];
    }

    method CreateCmdRequest(dev: DevId, data: Option<bytes>, respLen: u32) returns (r: bytes)
      requires data.Some? ==> |data.value| < PAYLOAD_LIMIT - 8
      ensures r == CmdRequest(dev, if data.Some? then data.value else [], respLen)
    {
      var dataAndLength := AddUint32([], if data.Some? then |data.value| else 0);
      if data.Some? {
        dataAndLength := dataAndLength + data.value;
      }
      dataAndLength := AddUint32(dataAndLength, respLen);
      r := CreateClientRequest(PKT3_CMD_REQ, dev, 0, Some(dataAndLength));
      assert dataAndLength == Be32(if data.Some? then |data.value| else 0)
                            + (if data.Some? then data.value else []) + Be32(respLen);
    }

    /** Appends the bytes of `val`, most significant first, one `push_back` at a time. */
    static method AddUint32(bv: bytes, val: u32) returns (r: bytes)
      ensures r == bv + Be32(val)
    {
      r := bv;
      for i := 0 to 4
        invariant r == bv + Be32(val)[..i]
      {
        BeAt(val, 4, i);
        r := r + [val / Pow256(3 - i) % 256];
      }
      assert Be32(val)[..4] == Be32(val);
    }

    /** The fields that every server packet starts with. */
    static method PushHead(mbuf: MBuf, pckt: u32, id: DevId)
      requires mbuf.Valid() && !mbuf.rdonly && mbuf.pos == 0 && mbuf.data.Length >= 32
      modifies mbuf, mbuf.data
      ensures mbuf.Valid() && !mbuf.rdonly && mbuf.pos == 32 && mbuf.data[..32] == Head(pckt, 0, id)
    {
      hide Be32, Be16, IdBytes;
      Push32(mbuf, 3);
      Push32(mbuf, pckt);
      Push32(mbuf, 0);
      PushId(mbuf, id);
      Push32(mbuf, 0);
      Push32(mbuf, 0);
    }

    method CreateServerResponse(pckt: u32, val: u32, dev: Option<DevId>, data: Option<bytes>) returns (r: bytes)
      requires data.Some? ==> |data.value| < PAYLOAD_LIMIT
      ensures r == ServerPacket(pckt, val, if dev.Some? then dev.value else NO_ID, if data.Some? then data.value else [])
    {
      hide Be32, Be16, IdBytes, Head;
      var payload := if data.Some? then data.value else [];
      var mbuf := new MBuf.Zeroed(64 + |payload|);
      PushHead(mbuf, pckt, if dev.Some? then dev.value else NO_ID);
      ghost var head := mbuf.data[..32];
      if pckt == PKT3_CLOSE_RESP || pckt == PKT3_OPEN_RESP {
        Push32(mbuf, val);
      } else if pckt == PKT3_CMD_RESP {
        Push32(mbuf, |payload|);
        PushBytes(mbuf, payload);
        assert mbuf.data[..mbuf.pos] == head + (Be32(|payload|) + payload);
      } else if pckt == PKT3_ENUM_RESP {
        Push32(mbuf, |payload| / 12);
        PushBytes(mbuf, payload);
        Push32(mbuf, 0);
        assert mbuf.data[..mbuf.pos] == head + (Be32(|payload| / 12) + payload + Be32(0));
      } else if pckt == PKT3_VER_RESP {
        Push32(mbuf, 3);
      } else if pckt == PKT3_ERROR_RESP {
        Push32(mbuf, val);
      }
      r := mbuf.ToVector();
    }

    /** The records of an enumeration, back to back. */
    method CreateEnumRecords(devs: seq<DevId>) returns (r: bytes)
      requires 12 * |devs| < PAYLOAD_LIMIT
      ensures r == ListBytes(devs)
    {
      hide IdBytes;
      var enumbuf := new MBuf.Zeroed(|devs| * 12);
      for i := 0 to |devs|
        invariant enumbuf.Valid() && fresh(enumbuf) && fresh(enumbuf.data)
        invariant !enumbuf.rdonly && enumbuf.pos == 12 * i && enumbuf.data.Length == 12 * |devs|
        invariant enumbuf.data[..12 * i] == ListBytes(devs[..i])
      {
        PushId(enumbuf, devs[i]);
        ListBytesSnoc(devs[..i], devs[i]);
        assert devs[..i + 1] == devs[..i] + [devs[i]];
      }
      assert devs[..|devs|] == devs;
      r := enumbuf.ToVector();
    }

    method CreateEnumResponse(devs: seq<DevId>) returns (r: bytes)
      requires 12 * |devs| < PAYLOAD_LIMIT
      ensures r == EnumResponse(devs)
    {
      if |devs| == 0 {
        r := CreateServerResponse(PKT3_ENUM_RESP, 0, None, None);
      } else {
        var enumvect := CreateEnumRecords(devs);
        r := CreateServerResponse(PKT3_ENUM_RESP, 0, None, Some(enumvect));
      }
    }

    /** Version, type, timeout and device id: the first 24 bytes. All reads fit, or something has
        failed, at most seven times. */
    static method ReadHeader(cmd: MBuf) returns (pckt: u32, dev: DevId)
      requires cmd.Valid() && cmd.pos == 0 && cmd.fails == 0 && cmd.rdonly
      modifies cmd
      ensures cmd.Valid() && cmd.rdonly && pckt == TypeOf(cmd.data[..])
      ensures if cmd.data.Length >= 24
              then cmd.pos == 24 && cmd.fails == 0 && dev == IdAt(cmd.data[..], 12)
              else 1 <= cmd.fails <= 7
    {
      hide BeValue;
      var _ := cmd.Read(4, false, 0);
      pckt := cmd.Read(4, false, 0);
      var _ := cmd.Read(4, false, 0);
      ghost var c := cmd.View();
      dev := ReadDevId(cmd, NO_ID);
      if cmd.data.Length >= 24 {
        ReadIdIs(c, NO_ID);
      }
      hide ReadId, IdAt;
    }

    /** `get_data_from_request`. */
    method GetDataFromRequest(cmd: MBuf) returns (ok: bool, data: bytes, dev: DevId, respLen: u32)
      requires cmd.Valid() && cmd.pos == 0 && cmd.fails == 0 && cmd.rdonly
      modifies this, cmd
      ensures match DecodeRequest(cmd.data[..])
              case Refused(e) => !ok && error == e
              case Accepted(_, d, bs, n) => ok && data == bs && dev == d && respLen == n && error == old(error)
    {
      hide BeValue, IdAt, TypeOf;
      data, respLen, resErr := [], 0, 0;
      var pckt;
      pckt, dev := ReadHeader(cmd);
      ok, data := GetRequestData(cmd, pckt);
      if ok {
        respLen := cmd.Read(4, false, 0);
        if cmd.WasBroken() {
          error := ERR_PCKT_FMT;
          ok := false;
        }
      }
    }

    /** The server branch of `get_spec_data`: a command carries its length, the other requests nothing. */
    method GetRequestData(cmd: MBuf, pckt: u32) returns (ok: bool, data: bytes)
      requires cmd.Valid() && cmd.rdonly && cmd.fails <= 7
      requires if cmd.data.Length >= 24 then cmd.pos == 24 && cmd.fails == 0 else cmd.fails > 0
      modifies this, cmd
      ensures cmd.Valid() && cmd.rdonly
      ensures pckt == PKT3_CMD_REQ ==>
        var n := cmd.data.Length;
        && (ok <==> n >= 36 && n == 40 + U32At(cmd.data[..], 32))
        && (ok ==> data == cmd.data[36..n - 4] && cmd.pos == n - 4 && cmd.fails == 0 && error == old(error))
        && (!ok ==> error == ERR_PCKT_FMT)
      ensures pckt in {PKT3_OPEN_REQ, PKT3_CLOSE_REQ, PKT3_ENUM_REQ, PKT3_VER_REQ} ==>
        ok && data == [] && cmd.pos == old(cmd.pos) && cmd.fails == old(cmd.fails) && error == old(error)
      ensures pckt !in {PKT3_CMD_REQ, PKT3_OPEN_REQ, PKT3_CLOSE_REQ, PKT3_ENUM_REQ, PKT3_VER_REQ} ==>
        !ok && error == ERR_PCKT_INV
    {
      data, resErr := [], 0;
      if pckt == PKT3_CMD_REQ {
        var _ := cmd.MSeek(8);
        var size := cmd.Read(4, false, 0);
        var len := cmd.RestOfSize();
        if cmd.WasBroken() || len != size as int + 4 {
          error := ERR_PCKT_FMT;
          return false, data;
        }
        data := cmd.data[cmd.pos..cmd.pos + size];
        var _ := cmd.MSeek(ToInt32(size));
        return true, data;
      } else if pckt == PKT3_OPEN_REQ || pckt == PKT3_CLOSE_REQ || pckt == PKT3_ENUM_REQ || pckt == PKT3_VER_REQ {
        return true, data;
      } else {
        error := ERR_PCKT_INV;
        return false, data;
      }
    }

    /** `get_data_from_bindy_callback`, with the client branch of `get_spec_data`. */
    method GetDataFromBindyCallback(cmd: MBuf) returns (ok: bool, data: bytes, pckt: u32)
      requires cmd.Valid() && cmd.pos == 0 && cmd.fails == 0 && cmd.rdonly
      modifies this, cmd
      ensures match DecodeReply(cmd.data[..])
              case Rejected(e) => !ok && error == e
              case Understood(p, r, bs, e) =>
                ok && pckt == p && resErr == r && data == bs && error == (if e.Some? then e.value else old(error))
    {
      hide BeValue, IdAt, TypeOf, DecodeEnum;
      data, resErr := [], 0;
      var dev;
      pckt, dev := ReadHeader(cmd);
      if cmd.WasBroken() {
        error := ERR_PCKT_FMT;
        return false, data, pckt;
      }
      ok, data := GetSpecData(cmd, pckt);
    }

    method GetSpecData(cmd: MBuf, pckt: u32) returns (ok: bool, data: bytes)
      requires cmd.Valid() && cmd.pos == 24 && cmd.fails == 0 && cmd.rdonly && cmd.data.Length >= 24
      requires TypeOf(cmd.data[..]) == pckt
      requires resErr == 0
      modifies this, cmd
      ensures match DecodeReply(cmd.data[..])
              case Rejected(e) => !ok && error == e
              case Understood(p, r, bs, e) =>
                ok && pckt == p && resErr == r && data == bs && error == (if e.Some? then e.value else old(error))
    {
      data := [];
      ghost var b := cmd.data[..];
      if pckt == PKT3_CMD_RESP {
        var _ := cmd.MSeek(8);
        var size := cmd.Read(4, false, 0);
        var len := cmd.RestOfSize();
        if cmd.WasBroken() || len != size {
          error := ERR_PCKT_FMT;
          return false, data;
        }
        data := cmd.RestToVector();
        return true, data;
      } else if pckt == PKT3_OPEN_RESP || pckt == PKT3_CLOSE_RESP || pckt == PKT3_VER_RESP || pckt == PKT3_ERROR_RESP {
        var _ := cmd.MSeek(8);
        var len := cmd.RestOfSize();
        if len != 4 {
          error := ERR_PCKT_FMT;
          return false, data;
        }
        var r := cmd.Read(4, false, 0);
        resErr := r;
        if pckt == PKT3_ERROR_RESP {
          error := r;
        }
        return true, data;
      } else if pckt == PKT3_ENUM_RESP {
        ok, data := GetEnumData(cmd);
      } else {
        error := ERR_PCKT_FMT;
        return false, data;
      }
    }

    method GetEnumData(cmd: MBuf) returns (ok: bool, data: bytes)
      requires cmd.Valid() && cmd.pos == 24 && cmd.fails == 0 && cmd.rdonly && cmd.data.Length >= 24
      modifies this, cmd
      ensures match DecodeEnum(cmd.data[..])
              case Rejected(e) => !ok && error == e
              case Understood(_, r, bs, _) => ok && resErr == r && data == bs && error == old(error)
    {
      hide BeValue, ReadRecords, LoopCount;
      ghost var b := cmd.data[..];
      assert cmd.View() == Fresh(b).(pos := 24);
      var _ := cmd.MSeek(8);
      ghost var c0 := cmd.View();
      assert c0 == Seek(Fresh(b).(pos := 24), 8);
      var size := cmd.Read(4, false, 0);
      resErr := size;
      ghost var c1 := cmd.View();
      assert c1 == Skip(c0, 4) && size == Cut32(ReadBe(c0, 4, 0));
      hide Skip, Seek, ReadBe;
      data := GetRecords(cmd, size);
      if cmd.WasBroken() {
        error := ERR_PCKT_FMT;
      }
      ok := !cmd.WasBroken();
    }

    method GetRecords(cmd: MBuf, size: u32) returns (data: bytes)
      requires cmd.Valid()
      modifies cmd
      ensures cmd.Valid() && cmd.View() == ReadRecords(old(cmd.View()), LoopCount(size), NO_ID).0
      ensures data == ReadRecords(old(cmd.View()), LoopCount(size), NO_ID).1
    {
      hide ReadId, SkipId, IdBytes;
      data := [];
      var dev := NO_ID;
      var n := ToInt32(size);
      ghost var c, k := cmd.View(), LoopCount(size);
      var i := 0;
      while i < n
        invariant cmd.Valid() && 0 <= i <= k
        invariant data + ReadRecords(cmd.View(), k - i, dev).1 == ReadRecords(c, k, NO_ID).1
        invariant ReadRecords(cmd.View(), k - i, dev).0 == ReadRecords(c, k, NO_ID).0
      {
        ghost var rest := ReadRecords(cmd.View(), k - i, dev).1;
        dev := ReadDevId(cmd, dev);
        assert rest == IdBytes(dev) + ReadRecords(cmd.View(), k - i - 1, dev).1;
        data := data + IdBytes(dev);
        i := i + 1;
      }
      assert ReadRecords(cmd.View(), 0, dev) == (cmd.View(), []);
    }
  }
}
