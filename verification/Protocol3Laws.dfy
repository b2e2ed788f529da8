/** What the two sides of a version 3 connection make of each other's packets. */
module Protocol3Laws {
  import opened Words
  import opened Bytes
  import opened MBufs
  import opened DevIds
  import opened Protocol3s

  /** Where the fields of a packet are. */
  lemma HeadFields(pckt: u32, tmout: u32, dev: DevId, tail: bytes)
    ensures var b := Head(pckt, tmout, dev) + tail;
            TypeOf(b) == pckt && IdAt(b, 12) == dev && U32At(b, 24) == 0 && b[32..] == tail
  {
    hide Be32, Be16, IdBytes, IdAt, U32At;
    var b := Head(pckt, tmout, dev) + tail;
    assert b[4..8] == Be32(pckt);
    assert b[12..12 + 12] == IdBytes(dev);
    assert b[24..28] == Be32(0);
    U32AtIs(b, 4, pckt);
    IdAtIs(b, 12, dev);
    U32AtIs(b, 24, 0);
  }

  /** All fields of a response that come before its payload, the device among them. */
  lemma ResponseFields(pckt: u32, val: u32, dev: DevId, data: bytes)
    requires |data| < PAYLOAD_LIMIT
    ensures var b := ServerPacket(pckt, val, dev, data);
            && U32At(b, 0) == 3 && U32At(b, 4) == pckt && U32At(b, 8) == 0
            && IdAt(b, 12) == dev
            && U32At(b, 24) == 0 && U32At(b, 28) == 0
  {
    hide Be32, Be16, IdBytes, IdAt, U32At, ServerPayload;
    var b := ServerPacket(pckt, val, dev, data);
    assert b[0..4] == Be32(3) && b[4..8] == Be32(pckt) && b[8..12] == Be32(0);
    assert b[12..12 + 12] == IdBytes(dev);
    assert b[24..28] == Be32(0) && b[28..32] == Be32(0);
    U32AtIs(b, 0, 3);
    U32AtIs(b, 4, pckt);
    U32AtIs(b, 8, 0);
    IdAtIs(b, 12, dev);
    U32AtIs(b, 24, 0);
    U32AtIs(b, 28, 0);
  }

  lemma FieldAfter(head: bytes, v: u32, tail: bytes)
    ensures U32At(head + (Be32(v) + tail), |head|) == v
    ensures (head + (Be32(v) + tail))[|head| + 4..] == tail
  {
    hide Be32;
    var b := head + (Be32(v) + tail);
    assert b[|head|..|head| + 4] == Be32(v);
    U32AtIs(b, |head|, v);
  }

  /** The server decodes a command exactly as the client encoded it. */
  lemma CommandRoundTrip(dev: DevId, data: bytes, respLen: u32)
    requires |data| < SIZE_LIMIT
    ensures DecodeRequest(CmdRequest(dev, data, respLen)) == Accepted(PKT3_CMD_REQ, dev, data, respLen)
  {
    hide Be32, IdAt, U32At, Head;
    var head := Head(PKT3_CMD_REQ, 0, dev);
    var tail := Be32(|data|) + data + Be32(respLen);
    var b := head + tail;
    assert CmdRequest(dev, data, respLen) == b;
    HeadFields(PKT3_CMD_REQ, 0, dev, tail);
    assert b == head + (Be32(|data|) + (data + Be32(respLen)));
    FieldAfter(head, |data|, data + Be32(respLen));
    assert b == (head + Be32(|data|) + data) + (Be32(respLen) + []);
    FieldAfter(head + Be32(|data|) + data, respLen, []);
    assert b[36..|b| - 4] == data;
  }

  /** Different commands are encoded differently. */
  lemma CommandsAreDistinct(dev: DevId, data: bytes, respLen: u32, dev': DevId, data': bytes, respLen': u32)
    requires |data| < SIZE_LIMIT && |data'| < SIZE_LIMIT
    requires CmdRequest(dev, data, respLen) == CmdRequest(dev', data', respLen')
    ensures dev == dev' && data == data' && respLen == respLen'
  {
    hide CmdRequest, DecodeRequest;
    CommandRoundTrip(dev, data, respLen);
    CommandRoundTrip(dev', data', respLen');
  }

  /** Whatever the server accepts as a command re-encodes to the same bytes, but for the version, the
      timeout and the two reserved words, which the server skips. */
  lemma CommandReencodes(b: bytes)
    requires |b| < SIZE_LIMIT
    requires DecodeRequest(b).Accepted? && DecodeRequest(b).pckt == PKT3_CMD_REQ
    ensures var r := DecodeRequest(b);
            |r.data| == |b| - 40
            && CmdRequest(r.dev, r.data, r.respLen)
            == Be32(3) + b[4..8] + Be32(0) + b[12..24] + Be32(0) + Be32(0) + b[32..]
  {
    hide Be32, Be16, IdAt, U32At, IdBytes;
    var r := DecodeRequest(b);
    Be32Of(b, 4);
    Be32Of(b, 32);
    Be32Of(b, |b| - 4);
    IdBytesOf(b, 12);
    assert b[32..] == b[32..32 + 4] + b[36..|b| - 4] + b[|b| - 4..|b| - 4 + 4];
  }

  /** Exactly what the server accepts as a command: bytes that agree with some encoded command in the
      device and from the length on, whatever the words that it skips. */
  lemma CommandAcceptedIff(b: bytes)
    requires |b| < SIZE_LIMIT && TypeOf(b) == 3
    ensures DecodeRequest(b).Accepted? <==> exists dev: DevId, data: bytes, respLen: u32 :: IsCommand(b, dev, data, respLen)
    ensures DecodeRequest(b).Refused? ==> DecodeRequest(b).error == 12
  {
    hide Be32, IdAt, U32At, IdBytes, TypeOf;
    if DecodeRequest(b).Accepted? {
      var r := DecodeRequest(b);
      Be32Of(b, 32);
      Be32Of(b, |b| - 4);
      IdBytesOf(b, 12);
      assert b[32..] == b[32..32 + 4] + b[36..|b| - 4] + b[|b| - 4..|b| - 4 + 4];
      assert IsCommand(b, r.dev, r.data, r.respLen);
    }
    if dev: DevId, data: bytes, respLen: u32 :| IsCommand(b, dev, data, respLen) {
      assert b[32..36] == b[32..][..4] == Be32(|data|);
      U32AtIs(b, 32, |data|);
    }
  }

  ghost predicate IsCommand(b: bytes, dev: DevId, data: bytes, respLen: u32) {
    |data| < SIZE_LIMIT && |b| >= 32 && b[12..24] == IdBytes(dev) && b[32..] == Be32(|data|) + data + Be32(respLen)
  }

  /** Types that are not requests are refused with the error 13. */
  lemma OtherTypesRefused(b: bytes)
    ensures TypeOf(b) == 0 || TypeOf(b) > 5 <==> DecodeRequest(b) == Refused(13)
  {
    hide U32At, IdAt;
  }

  /** Exactly what the client accepts as the answer to a command: a head of 32 bytes, and behind it the
      length of the data and the data. */
  lemma CommandResponseAcceptedIff(b: bytes)
    requires 24 <= |b| < SIZE_LIMIT && TypeOf(b) == PKT3_CMD_RESP
    ensures DecodeReply(b).Understood? <==> |b| >= 36 && b[32..] == Be32(|b| - 36) + b[36..]
    ensures DecodeReply(b).Understood? ==> DecodeReply(b) == Understood(PKT3_CMD_RESP, 0, b[36..], None)
    ensures DecodeReply(b).Rejected? ==> DecodeReply(b).error == 12
  {
    hide Be32, U32At, TypeOf;
    if |b| >= 36 {
      assert b[32..] == b[32..36] + b[36..];
      if b[32..] == Be32(|b| - 36) + b[36..] {
        assert b[32..36] == b[32..][..4] == Be32(|b| - 36);
        U32AtIs(b, 32, |b| - 36);
      }
      if |b| == 36 + U32At(b, 32) {
        Be32Of(b, 32);
      }
    }
  }

  /** Open, close, enumerate and version requests reach the server with their type and device. */
  lemma PlainRequestRoundTrip(pckt: u32, dev: DevId, tmout: u32)
    requires pckt in {PKT3_OPEN_REQ, PKT3_CLOSE_REQ, PKT3_ENUM_REQ, PKT3_VER_REQ}
    ensures DecodeRequest(ClientPacket(pckt, dev, tmout, []))
         == Accepted(pckt, if pckt in {PKT3_OPEN_REQ, PKT3_CLOSE_REQ} then dev else NO_ID, [], 0)
  {
    hide Be32, IdAt, U32At, Head;
    HeadFields(pckt, tmout, if pckt in {PKT3_OPEN_REQ, PKT3_CLOSE_REQ} then dev else NO_ID, []);
  }

  /** The client reads a command response as the bytes the server answered with. */
  lemma CommandResponseRoundTrip(dev: DevId, data: bytes)
    requires |data| < PAYLOAD_LIMIT
    ensures DecodeReply(ServerPacket(PKT3_CMD_RESP, 0, dev, data)) == Understood(PKT3_CMD_RESP, 0, data, None)
  {
    hide Be32, IdAt, U32At, Head;
    var tail := Be32(|data|) + data;
    HeadFields(PKT3_CMD_RESP, 0, dev, tail);
    FieldAfter(Head(PKT3_CMD_RESP, 0, dev), |data|, data);
  }

  /** Open, close and error responses carry their value; a version response carries 3. */
  lemma StatusResponseRoundTrip(pckt: u32, val: u32, dev: DevId)
    requires pckt in {PKT3_OPEN_RESP, PKT3_CLOSE_RESP, PKT3_ERROR_RESP, PKT3_VER_RESP}
    ensures var v: u32 := if pckt == PKT3_VER_RESP then 3 else val;
            DecodeReply(ServerPacket(pckt, val, dev, []))
            == Understood(pckt, v, [], if pckt == PKT3_ERROR_RESP then Some(v) else None)
  {
    hide Be32, IdAt, U32At, Head;
    var v: u32 := if pckt == PKT3_VER_RESP then 3 else val;
    HeadFields(pckt, 0, dev, Be32(v));
    FieldAfter(Head(pckt, 0, dev), v, []);
    assert Be32(v) + [] == Be32(v);
  }

  // ---------------------------------------------------------------- enumeration

  /** Records that all fit are handed on byte for byte. */
  lemma {:induction false} RecordsThatFit(c: Cursor, k: nat, d: DevId)
    requires c.Ok() && c.Rest() >= 12 * k
    ensures ReadRecords(c, k, d) == (c.(pos := c.pos + 12 * k), c.data[c.pos..c.pos + 12 * k])
    decreases k
  {
    hide ReadId, IdBytes, IdAt, SkipId;
    if k > 0 {
      ReadIdIs(c, d);
      IdBytesOf(c.data, c.pos);
      var c' := SkipId(c);
      RecordsThatFit(c', k - 1, ReadId(c, d));
      assert c'.data == c.data && c'.pos == c.pos + 12;
      assert c.data[c.pos..c.pos + 12 * k] == c.data[c.pos..c.pos + 12] + c.data[c.pos + 12..c.pos + 12 * k];
      assert ReadRecords(c, k, d).1 == IdBytes(ReadId(c, d)) + ReadRecords(c', k - 1, ReadId(c, d)).1;
    } else {
      assert c.data[c.pos..c.pos + 12 * k] == [];
      assert ReadRecords(c, k, d) == (c, []);
    }
  }

  /** How many of the four reads of a record fail when `m` bytes are left, and what is left then. */
  function RecordFailures(m: nat): nat {
    if m < 2 then 4 else if m < 6 then 3 else if m < 8 then 2 else if m < 12 then 1 else 0
  }

  function RecordLeft(m: nat): nat {
    if m >= 12 then m - 12 else if m >= 8 then m - 8 else if m >= 6 then m - 6 else if m >= 4 then m - 4
    else if m >= 2 then m - 2 else m
  }

  /** The number of failing reads when `k` records are read from `m` bytes. */
  function MissingReads(m: nat, k: nat): nat {
    if 12 * k <= m then 0
    else
      var j := k - m / 12;  // records that do not fit entirely
      RecordFailures(m % 12)
      + (if j == 1 then 0 else (if m % 12 >= 10 then 3 else 4) + 4 * (j - 2))
  }

  lemma SkipIdCounts(c: Cursor)
    requires c.Ok()
    ensures SkipId(c).fails == c.fails + RecordFailures(c.Rest()) && SkipId(c).Rest() == RecordLeft(c.Rest())
  {
  }

  lemma MissingStep(m: nat, k: nat)
    requires k > 0
    ensures MissingReads(m, k) == RecordFailures(m) + MissingReads(RecordLeft(m), k - 1)
  {
    if m >= 12 {
      assert (m - 12) / 12 == m / 12 - 1 && (m - 12) % 12 == m % 12;
    }
  }

  lemma {:induction false} RecordsCount(c: Cursor, k: nat, d: DevId)
    requires c.Ok()
    ensures ReadRecords(c, k, d).0.fails == c.fails + MissingReads(c.Rest(), k)
    decreases k
  {
    hide ReadId, IdBytes, SkipId, RecordFailures, RecordLeft;
    if k > 0 {
      SkipIdCounts(c);
      MissingStep(c.Rest(), k);
      RecordsCount(SkipId(c), k - 1, ReadId(c, d));
    } else {
      assert MissingReads(c.Rest(), 0) == 0;
    }
  }

  /** The number of records that the decoder reads from the packet: from its place, or, when the skip
      before it fails, eight bytes earlier. */
  function Announced(b: bytes): u32
    requires 24 <= |b|
  {
    if |b| >= 36 then U32At(b, 32) else if 28 <= |b| < 32 then U32At(b, 24) else 0
  }

  /** The failures of decoding an enumeration response: of the skip, of reading the number of records,
      and of reading the records. */
  function EnumFailures(b: bytes): nat
    requires 24 <= |b|
  {
    if |b| < 28 then 2
    else if |b| < 32 then 1 + MissingReads(|b| - 28, LoopCount(Announced(b)))
    else if |b| < 36 then 1
    else MissingReads(|b| - 36, LoopCount(Announced(b)))
  }

  /**
   Exactly when an enumeration response is accepted: the number of failures, computed from the length
   and the announced count, is a multiple of 256. Of the packets that are too short for a count,
   those of 28 to 31 bytes can be accepted, and no others.
  */
  lemma EnumAcceptedIff(b: bytes)
    requires 24 <= |b| < SIZE_LIMIT
    ensures DecodeEnum(b).Understood? <==> EnumFailures(b) % 256 == 0
    ensures DecodeEnum(b).Understood? ==> DecodeEnum(b).result == Announced(b)
                                          && |DecodeEnum(b).data| == 12 * LoopCount(Announced(b))
    ensures |b| < 28 || 32 <= |b| < 36 ==> DecodeEnum(b) == Rejected(ERR_PCKT_FMT)
  {
    hide ReadRecords, MissingReads, BeValue, LoopCount;
    var c := AfterCount(b);
    DecodeEnumIs(b);
    RecordsCount(c, LoopCount(Announced(b)), NO_ID);
    NothingMissing(c.Rest());
  }

  /** Where the cursor stands when the records are read. */
  function AfterCount(b: bytes): (c: Cursor)
    requires 24 <= |b| < SIZE_LIMIT
    ensures c.Ok()
  {
    var c := Fresh(b);
    if |b| < 28 then c.(pos := 24, fails := 2)
    else if |b| < 32 then c.(pos := 28, fails := 1)
    else if |b| < 36 then c.(pos := 32, fails := 1)
    else c.(pos := 36)
  }

  lemma DecodeEnumIs(b: bytes)
    requires 24 <= |b| < SIZE_LIMIT
    ensures var size := Announced(b);
            var r := ReadRecords(AfterCount(b), LoopCount(size), NO_ID);
            DecodeEnum(b) == if r.0.Broken() then Rejected(ERR_PCKT_FMT) else Understood(PKT3_ENUM_RESP, size, r.1, None)
  {
    hide ReadRecords, BeValue, LoopCount;
    var c0 := Seek(Fresh(b).(pos := 24), 8);
    assert c0 == if |b| < 32 then Fresh(b).(pos := 24, fails := 1) else Fresh(b).(pos := 32);
    assert Skip(c0, 4) == AfterCount(b);
    assert Cut32(ReadBe(c0, 4, 0)) == Announced(b);
  }

  lemma NothingMissing(m: nat)
    ensures MissingReads(m, LoopCount(0)) == 0
  {
  }

  lemma DecodeEnumAt36(b: bytes)
    requires 36 <= |b| < SIZE_LIMIT
    ensures var size := U32At(b, 32);
            var r := ReadRecords(Fresh(b).(pos := 36), LoopCount(size), NO_ID);
            DecodeEnum(b) == if r.0.Broken() then Rejected(ERR_PCKT_FMT) else Understood(PKT3_ENUM_RESP, size, r.1, None)
  {
    hide ReadRecords, BeValue, LoopCount, DecodeEnum;
    DecodeEnumIs(b);
  }

  /** Below 64 records the test is exact: accepted if and only if the packet has a count and every
      announced record, and then the records are handed on unchanged. */
  lemma SmallEnumIsChecked(b: bytes)
    requires 24 <= |b| < SIZE_LIMIT && Announced(b) < 64
    ensures var k := Announced(b);
            && (DecodeEnum(b).Understood? <==> 36 + 12 * k <= |b|)
            && (DecodeEnum(b).Understood? ==> DecodeEnum(b) == Understood(PKT3_ENUM_RESP, k, b[36..36 + 12 * k], None))
  {
    hide ReadRecords, BeValue, DecodeEnum, MissingReads;
    var k := Announced(b);
    EnumAcceptedIff(b);
    if |b| >= 36 {
      DecodeEnumAt36(b);
      MissingBounds(|b| - 36, k);
      if 36 + 12 * k <= |b| {
        RecordsThatFit(Fresh(b).(pos := 36), k, NO_ID);
      }
    } else if 28 <= |b| < 32 {
      MissingBounds(|b| - 28, k);
    }
  }

  lemma MissingBounds(m: nat, k: nat)
    ensures m < 12 * k ==> 1 <= MissingReads(m, k) <= 4 * k
    ensures 12 * k <= m ==> MissingReads(m, k) == 0
  {
  }

  /** At 64 records it is not: a packet that announces 64 records and contains none is accepted. */
  lemma EmptyEnumAccepted()
    ensures var b := Head(PKT3_ENUM_RESP, 0, NO_ID) + Be32(64);
            |b| == 36 && DecodeEnum(b).Understood? && |DecodeEnum(b).data| == 768
  {
    hide Be32, Head, DecodeEnum, U32At;
    var b := Head(PKT3_ENUM_RESP, 0, NO_ID) + Be32(64);
    FieldAfter(Head(PKT3_ENUM_RESP, 0, NO_ID), 64, []);
    assert b == Head(PKT3_ENUM_RESP, 0, NO_ID) + (Be32(64) + []);
    EnumAcceptedIff(b);
  }

  /** And so is every packet of 30 bytes whose first reserved word is 64, which has no count at all. */
  lemma ShortEnumAccepted(b: bytes)
    requires |b| == 30 && U32At(b, 24) == 64
    ensures DecodeEnum(b).Understood? && DecodeEnum(b).result == 64 && |DecodeEnum(b).data| == 768
  {
    hide DecodeEnum, U32At;
    EnumAcceptedIff(b);
  }

  /** A device list reaches the client as the concatenation of its records, for lists of any length. */
  lemma EnumRoundTrip(devs: seq<DevId>)
    requires 12 * |devs| < PAYLOAD_LIMIT
    ensures DecodeReply(EnumResponse(devs)) == Understood(PKT3_ENUM_RESP, |devs|, ListBytes(devs), None)
  {
    hide Be32, IdAt, U32At, Head, DecodeEnum, ListBytes, TypeOf, EnumResponse;
    var head, data := Head(PKT3_ENUM_RESP, 0, NO_ID), ListBytes(devs);
    var b := EnumResponse(devs);
    EnumResponseIs(devs);
    HeadFields(PKT3_ENUM_RESP, 0, NO_ID, Be32(|devs|) + (data + Be32(0)));
    FieldAfter(head, |devs|, data + Be32(0));
    assert b[36..36 + 12 * |devs|] == data;
    EnumOfRecords(b, |devs|, data);
  }

  lemma EnumResponseIs(devs: seq<DevId>)
    requires 12 * |devs| < PAYLOAD_LIMIT
    ensures EnumResponse(devs) == Head(PKT3_ENUM_RESP, 0, NO_ID) + (Be32(|devs|) + (ListBytes(devs) + Be32(0)))
    ensures |EnumResponse(devs)| == 40 + 12 * |devs|
  {
    hide Be32, Head, ListBytes;
    assert ServerPayload(PKT3_ENUM_RESP, 0, ListBytes(devs)) == Be32(|devs|) + (ListBytes(devs) + Be32(0));
  }

  lemma EnumOfRecords(b: bytes, k: nat, data: bytes)
    requires 36 <= |b| < SIZE_LIMIT && U32At(b, 32) == k && k < SIZE_LIMIT
    requires |data| == 12 * k && |b| >= 36 + 12 * k && b[36..36 + 12 * k] == data
    ensures DecodeEnum(b) == Understood(PKT3_ENUM_RESP, k, data, None)
  {
    hide U32At, DecodeEnum, ReadRecords;
    DecodeEnumAt36(b);
    RecordsThatFit(Fresh(b).(pos := 36), k, NO_ID);
  }
}
