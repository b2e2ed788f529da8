/**
 What calls come to against servers that are described by the bytes they send: an opening that is
 granted or refused, a list of devices, a version, an answer to a command.
*/
module ServerAnswers {
  import opened Words
  import opened Bytes
  import opened MBufs
  import opened DevIds
  import opened Protocol3s
  import opened Protocol3Laws
  import opened Protocol12s
  import opened Uris
  import opened EnumPipeline
  import opened Negotiations
  import opened ConnRegistries

  // ---------------------------------------------------------------- opening

  /** While a call with `n` rounds can last, the server can be reached, answers the opening of `dev` in
      version `s` with the packet `b`, and ignores other versions. */
  ghost predicate Replies(net: Network, tick: nat, n: nat, dev: DevId, s: u32, b: Packet)
    requires Supported(s)
  {
    forall k: nat :: tick <= k < tick + Events(n) ==> RepliesAt(net, k, dev, s, b)
  }

  ghost predicate RepliesAt(net: Network, k: nat, dev: DevId, s: u32, b: Packet)
    requires Supported(s)
  {
    && net.connect(k) != CONN_INVALID
    && net.answer(k, OpenRequest(s, dev)) == Message(b)
    && forall v: u32 :: Supported(v) && v != s ==> net.answer(k, OpenRequest(v, dev)) == Silent
  }

  lemma {:induction false} ReplyDecides(net: Network, tick: nat, v: u32, dev: DevId, s: u32, b: Packet, n: nat)
    requires Supported(v) && Supported(s) && Replies(net, tick, n, dev, s, b) && StepsDown(v, s) < n && VersionOf(b) == s
    ensures var r := Opening(net, tick, v, dev, n);
            && r.error == AnswerError(s, b) && r.tried == Downwards(v, StepsDown(v, s))
            && (if r.error == 0 then r.version == s && r.conn != CONN_INVALID else r.conn == CONN_INVALID)
    decreases n
  {
    hide AnswerError, OpenRequest;
    assert RepliesAt(net, tick, dev, s, b) && RepliesAt(net, tick + 1, dev, s, b);
    ErrorOfAnswer(s, b);
    if v != s {
      assert net.answer(tick + 1, OpenRequest(v, dev)) == Silent;
      ReplyDecides(net, tick + 2, Decrement(v), dev, s, b, n - 1);
    }
  }

  lemma ErrorOfAnswer(v: u32, b: Packet)
    requires Supported(v)
    ensures AnswerError(v, b) !in {ERR_ANOTHER_PROTOCOL, ERR_RECV_TIMEOUT}
  {
    hide DecodeIn;
    RejectionIsError(v, b);
  }

  /** Against a server of any version, from any version to start with: an opening succeeds if and only if
      the server answers with the value 1. Otherwise there is the error 0xffbc, and no connection. */
  lemma OpeningAsAnswered(net: Network, tick: nat, v: u32, dev: DevId, s: u32, val: u32)
    requires Supported(v) && Supported(s) && Replies(net, tick, LAST_VERSION, dev, s, OpenAnswer(s, val, dev))
    ensures var r := Opening(net, tick, v, dev, LAST_VERSION);
            if val == 1 then r.error == 0 && r.version == s && r.conn != CONN_INVALID
            else r.error == 0xffbc && r.conn == CONN_INVALID
  {
    hide Opening, OpenAnswer, DecodeIn, Replies;
    OpenAnswerRead(s, val, dev);
    ReplyDecides(net, tick, v, dev, s, OpenAnswer(s, val, dev), LAST_VERSION);
  }

  function ErrorAnswer(code: u32, dev: DevId): (r: bytes)
    ensures |r| == 36
  {
    ServerPacket(PKT3_ERROR_RESP, code, dev, [])
  }

  lemma ErrorAnswerRead(code: u32, dev: DevId)
    ensures VersionOf(ErrorAnswer(code, dev)) == 3
    ensures DecodeReply(ErrorAnswer(code, dev)) == Understood(PKT3_ERROR_RESP, code, [], Some(code))
  {
    hide IdBytes, ServerPayload, Be32, DecodeReply;
    var b := ErrorAnswer(code, dev);
    assert b[..4] == Be32(3);
    assert b[3] == Be32(3)[3];
    LastByte(3);
    StatusResponseRoundTrip(PKT3_ERROR_RESP, code, dev);
  }

  /** An error packet refuses the opening whatever its code is, even if that is 1. */
  lemma OpeningRefused(net: Network, tick: nat, v: u32, dev: DevId, code: u32)
    requires Supported(v) && Replies(net, tick, LAST_VERSION, dev, 3, ErrorAnswer(code, dev))
    ensures var r := Opening(net, tick, v, dev, LAST_VERSION); r.error == 0xffbc && r.conn == CONN_INVALID
  {
    hide Opening, ErrorAnswer, DecodeReply, Replies;
    ErrorAnswerRead(code, dev);
    ReplyDecides(net, tick, v, dev, 3, ErrorAnswer(code, dev), LAST_VERSION);
  }

  /** A version 1 server that has lost the device says so, and the opening fails with the error 0xfffb. */
  lemma OpeningLost(net: Network, tick: nat, v: u32, dev: DevId)
    requires Supported(v) && Replies(net, tick, LAST_VERSION, dev, 1, ShortHead(1, 4, dev.id))
    ensures var r := Opening(net, tick, v, dev, LAST_VERSION); r.error == 0xfffb && r.conn == CONN_INVALID
  {
    hide Opening, Replies, ShortHead;
    var b := ShortHead(1, 4, dev.id);
    ShortHeadFields(1, 4, dev.id, []);
    assert b + [] == b;
    ShortHeadVersion(1, 4, dev.id);
    ReplyDecides(net, tick, v, dev, 1, b, LAST_VERSION);
  }

  lemma ShortHeadVersion(v: u8, pckt: u32, serial: u32)
    ensures VersionOf(ShortHead(v, pckt, serial)) == v
  {
    hide Be32;
    var b := ShortHead(v, pckt, serial);
    assert b[..4] == Be32(v);
    assert b[3] == Be32(v)[3];
    LastByte(v);
  }

  ghost predicate Mute(net: Network) {
    (forall k: nat :: net.connect(k) != CONN_INVALID) && (forall k: nat, q: bytes :: net.answer(k, q) == Silent)
  }

  /** Openings that get no answer: without a connection the error is 2, after a failed send it is 5, and
      both end at once; a server that never answers is tried in every version, and then the error is 7. */
  lemma OpeningUnanswered(net: Network, tick: nat, v: u32, dev: DevId)
    requires Supported(v)
    ensures net.connect(tick) == CONN_INVALID ==> Opening(net, tick, v, dev, LAST_VERSION).error == 2
    ensures net.connect(tick) != CONN_INVALID && net.answer(tick + 1, OpenRequest(v, dev)) == NotSent ==>
      var r := Opening(net, tick, v, dev, LAST_VERSION); r.error == 5 && r.conn == CONN_INVALID && r.tried == [v]
    ensures Mute(net) ==>
      var r := Opening(net, tick, v, dev, LAST_VERSION);
      r.error == 7 && r.conn == CONN_INVALID && r.tried == [v, Decrement(v), Decrement(Decrement(v))]
  {
    hide OpenRequest, AnswerError;
    if Mute(net) {
      SilentRounds(net, tick, v, dev, 3);
      SilentRounds(net, tick + 2, Decrement(v), dev, 2);
      SilentRounds(net, tick + 4, Decrement(Decrement(v)), dev, 1);
    }
  }

  lemma SilentRounds(net: Network, tick: nat, v: u32, dev: DevId, n: nat)
    requires Supported(v) && n > 0 && net.connect(tick) != CONN_INVALID && net.answer(tick + 1, OpenRequest(v, dev)) == Silent
    ensures var r := Opening(net, tick, v, dev, n);
            if n == 1 then r.error == 7 && r.conn == CONN_INVALID && r.tried == [v]
            else var r' := Opening(net, tick + 2, Decrement(v), dev, n - 1); r == r'.(tried := [v] + r'.tried)
  {
    hide OpenRequest, AnswerError;
  }

  // ---------------------------------------------------------------- enumerating

  /** While a call with `n` rounds can last, the server can be reached, answers enumerations in version
      `s` with the packet `b`, and ignores other versions. */
  ghost predicate ListsWith(net: Network, tick: nat, n: nat, s: u32, b: Packet)
    requires s in {1, 3}
  {
    forall k: nat :: tick <= k < tick + Events(n) ==> ListsWithAt(net, k, s, b)
  }

  ghost predicate ListsWithAt(net: Network, k: nat, s: u32, b: Packet)
    requires s in {1, 3}
  {
    && net.connect(k) != CONN_INVALID
    && net.answer(k, EnumRequest(s)) == Message(b)
    && net.answer(k, EnumRequest(4 - s)) == Silent
  }

  lemma ListAttempt(net: Network, tick: nat, v: u32, s: u32, b: Packet)
    requires Supported(v) && s in {1, 3} && ListsWithAt(net, tick, s, b)
    requires VersionOf(b) == s && DecodeIn(s, b).Understood? && DecodeIn(s, b).stored == None
    ensures TryEnum(net, tick, v) ==
      if v == 2 then Listing(2, ERR_NO_PROTOCOL, 0, [], tick)
      else if v == s then Listing(s, 0, DecodeIn(s, b).result, DecodeIn(s, b).data, tick + 1)
      else Listing(v, ERR_RECV_TIMEOUT, 0, [], tick + 1)
  {
    hide DecodeIn, EnumRequest;
    RequestExists(v);
  }

  /** The call hands on what the decoder makes of the answer. */
  lemma {:induction false} ListDecides(net: Network, tick: nat, v: u32, s: u32, b: Packet, n: nat)
    requires Supported(v) && s in {1, 3} && ListsWith(net, tick, n, s, b) && StepsDown(v, s) < n
    requires VersionOf(b) == s && DecodeIn(s, b).Understood? && DecodeIn(s, b).stored == None
    ensures var r := Enumerating(net, tick, v, n);
            r.error == 0 && r.count == DecodeIn(s, b).result && r.data == DecodeIn(s, b).data
    decreases n
  {
    hide DecodeIn, TryEnum;
    assert ListsWithAt(net, tick, s, b) && ListsWithAt(net, tick + 1, s, b);
    ListAttempt(net, tick + 1, v, s, b);
    hide ListsWithAt;
    if v != s {
      ListDecides(net, if v == 2 then tick + 1 else tick + 2, Decrement(v), s, b, n - 1);
    }
  }

  /** Against a server of version 3 the call gives the number of its devices and their records. */
  lemma EnumeratingAsListed(net: Network, tick: nat, v: u32, devs: seq<DevId>)
    requires Supported(v) && 12 * |devs| < PAYLOAD_LIMIT && ListsWith(net, tick, LAST_VERSION, 3, ListAnswer(devs))
    ensures var r := Enumerating(net, tick, v, LAST_VERSION);
            r.error == 0 && r.count == |devs| && r.data == ListBytes(devs)
  {
    hide Enumerating, ListsWith, ListAnswer, DecodeReply;
    ListAnswerRead(devs);
    ListDecides(net, tick, v, 3, ListAnswer(devs), LAST_VERSION);
  }

  function ListAnswer(devs: seq<DevId>): (r: bytes)
    requires 12 * |devs| < PAYLOAD_LIMIT
    ensures |r| < SIZE_LIMIT
  {
    ResponseLength(devs);
    EnumResponse(devs)
  }

  lemma ListAnswerRead(devs: seq<DevId>)
    requires 12 * |devs| < PAYLOAD_LIMIT
    ensures VersionOf(ListAnswer(devs)) == 3
    ensures DecodeReply(ListAnswer(devs)) == Understood(PKT3_ENUM_RESP, |devs|, ListBytes(devs), None)
  {
    hide IdBytes, ServerPayload, Be32, DecodeReply, ListBytes;
    var b := ListAnswer(devs);
    assert b[..4] == Be32(3);
    assert b[3] == Be32(3)[3];
    LastByte(3);
    EnumRoundTrip(devs);
  }

  /** Version 1 answers that have room for the records they announce. */
  predicate IsList1(b: bytes) {
    16 <= |b| < SIZE_LIMIT && VersionOf(b) == 1 && TypeOf(b) == 0xFD && U32At(b, 12) < SIZE_LIMIT
    && 16 + 180 * U32At(b, 12) <= |b|
  }

  /** Against a server of version 1 it gives the serials of the answer, as ids. */
  lemma EnumeratingAsListed1(net: Network, tick: nat, v: u32, b: Packet)
    requires Supported(v) && IsList1(b) && ListsWith(net, tick, LAST_VERSION, 1, b)
    ensures var r, k := Enumerating(net, tick, v, LAST_VERSION), U32At(b, 12);
            r.error == 0 && r.count == k && r.data == ListBytes(Serials(b, 16, k))
  {
    hide Enumerating, ListsWith, Serials, ListBytes, U32At, ReadRecords1;
    Enum1AcceptedIff(b);
    ListDecides(net, tick, v, 1, b, LAST_VERSION);
  }

  /** The text that the application gets: the devices are printed if there are any. */
  function CallText(host: bytes, count: nat, data: bytes): bytes {
    if |data| < SIZE_LIMIT && (|host| + 40) * count < SIZE_LIMIT then ListText(host, data, count) else []
  }

  /** What it makes of the text. */
  function ParsedUris(text: bytes): seq<UriResult> {
    var lines := Split(text);
    seq(|lines|, i requires 0 <= i < |lines| => ParseUri(lines[i]))
  }

  lemma ListedText(host: bytes, devs: seq<DevId>)
    requires GoodHost(host) && (|host| + 40) * |devs| < SIZE_LIMIT
    ensures ParsedUris(CallText(host, |devs|, ListBytes(devs))) == UrisOf(host, devs)
  {
    hide ListText, ParseUri, GoodHost, Records, UrisOf, Split, ListBytes;
    assert (|host| + 40) * |devs| == |host| * |devs| + 40 * |devs|;
    assert |host| * |devs| >= 0;
    ParsedText(host, ListBytes(devs), |devs|);
    assert ListBytes(devs)[0..0 + 12 * |devs|] == ListBytes(devs);
    RecordsOf(ListBytes(devs), 0, devs);
  }

  // ---------------------------------------------------------------- such servers exist

  /** For every version and value there is a server that answers openings so, never gives an id twice, and
      can be reached for more than four billion events. */
  lemma ReplyingServerExists(s: u32, val: u32, dev: DevId, tick: nat, n: nat) returns (net: Network)
    requires Supported(s) && tick + Events(n) < UINT32_MAX
    ensures FreshIds(net) && Replies(net, tick, n, dev, s, OpenAnswer(s, val, dev))
  {
    hide OpenAnswer, OpenRequest;
    net := OneServer(req => req == OpenRequest(s, dev), OpenAnswer(s, val, dev));
    forall v: u32 | Supported(v) && v != s ensures OpenRequest(v, dev) != OpenRequest(s, dev) {
      RequestVersion(v, dev);
      RequestVersion(s, dev);
    }
  }

  /** For every list there is one that has these devices. */
  lemma DeviceServerExists(devs: seq<DevId>, tick: nat, n: nat) returns (net: Network)
    requires 12 * |devs| < PAYLOAD_LIMIT && tick + Events(n) < UINT32_MAX
    ensures FreshIds(net) && ListsWith(net, tick, n, 3, ListAnswer(devs))
  {
    hide ListAnswer, EnumRequest;
    EnumRequestVersion(1);
    EnumRequestVersion(3);
    net := OneServer(req => req == EnumRequest(3), ListAnswer(devs));
  }

  // ---------------------------------------------------------------- the version to start with

  /** A new library starts in version 1; setting a supported version changes that, and an opening makes
      its first attempt in it. */
  lemma FirstAttempt(net: Network, s: State, uri: bytes, junk: DevId, v: u32)
    ensures Start().base == 1 && Start().registry == map[]
    ensures Do(net, s, SetBase(v, 0, 0)).base == if 1 <= v <= 3 then v else s.base
    ensures net.connect(s.tick) != CONN_INVALID ==>
      var r := OpeningBy(net, s, OpenDevice(uri, junk)); r.tried != [] && r.tried[0] == s.base
  {
    hide TryOpen, ConnRegistries.DeviceOf;
  }

  // ---------------------------------------------------------------- asking for the version

  /** A server that answers with its version is reported as version 3; an error code is passed on. */
  lemma VersionAsAnswered(net: Network, tick: nat, val: u32, dev: DevId)
    ensures net.answer(tick, VersionRequest()) == Message(VersionAnswer(val, dev)) ==> VersionReply(net, tick) == (Some(3), 0)
    ensures net.answer(tick, VersionRequest()) == Message(ErrorAnswer(val, dev)) ==> VersionReply(net, tick).1 == val
  {
    hide VersionRequest, VersionAnswer, ErrorAnswer, DecodeReply;
    VersionAnswerRead(val, dev);
    ErrorAnswerRead(val, dev);
  }

  function VersionAnswer(val: u32, dev: DevId): (r: bytes)
    ensures |r| == 36
  {
    ServerPacket(PKT3_VER_RESP, val, dev, [])
  }

  lemma VersionAnswerRead(val: u32, dev: DevId)
    ensures DecodeReply(VersionAnswer(val, dev)) == Understood(PKT3_VER_RESP, 3, [], None)
  {
    hide DecodeReply, ServerPacket;
    StatusResponseRoundTrip(PKT3_VER_RESP, val, dev);
  }

  // ---------------------------------------------------------------- closing

  function CloseAnswer(v: u32, val: u32, dev: DevId): (r: bytes)
    requires Supported(v)
    ensures |r| == if v == 3 then 36 else 28
  {
    if v == 3 then ServerPacket(PKT3_CLOSE_RESP, val, dev, []) else ShortHead(v, PKT_CLOSE_RESP, dev.id) + Be32(val)
  }

  /** A closing is reported as done if and only if the server answers with the value 1; after an error
      packet it is not, and the error is 0xfffb. */
  lemma ClosingAsAnswered(net: Network, tick: nat, v: u32, dev: DevId, val: u32)
    requires Supported(v)
    ensures net.answer(tick, CloseRequest(v, dev)) == Message(CloseAnswer(v, val, dev)) ==>
      TryClose(net, tick, v, dev) == Closing(Some(val == 1), 0)
    ensures v == 3 && net.answer(tick, CloseRequest(v, dev)) == Message(ErrorAnswer(val, dev)) ==>
      TryClose(net, tick, v, dev) == Closing(Some(false), 0xfffb)
  {
    hide CloseRequest, CloseAnswer, ErrorAnswer, DecodeIn, DecodeReply;
    CloseAnswerRead(v, val, dev);
    ErrorAnswerRead(val, dev);
    if v == 3 {
      assert DecodeIn(v, ErrorAnswer(val, dev)) == DecodeReply(ErrorAnswer(val, dev)) by { LastDecoder(ErrorAnswer(val, dev)); }
    }
  }

  lemma LastDecoder(b: Packet)
    ensures DecodeIn(3, b) == DecodeReply(b)
  {
  }

  lemma CloseAnswerRead(v: u32, val: u32, dev: DevId)
    requires Supported(v)
    ensures DecodeIn(v, CloseAnswer(v, val, dev)) == Understood(PKT_CLOSE_RESP, val, [], None)
  {
    hide DecodeReply, ServerPacket, ShortHead, Be32;
    if v == 3 {
      StatusResponseRoundTrip(PKT3_CLOSE_RESP, val, dev);
    } else {
      hide DecodeIn;
      ShortStatus(v, PKT_CLOSE_RESP, dev.id, val);
    }
  }

  // ---------------------------------------------------------------- commands

  /** How devices of version 1 and servers of versions 2 and 3 answer a command; in version 2 the result
      of the device comes before its data. */
  function CommandAnswer(v: u32, dev: DevId, result: u32, resp: bytes): (r: bytes)
    requires Supported(v) && |resp| < PAYLOAD_LIMIT
    ensures |r| < SIZE_LIMIT
  {
    if v == 1 then ShortHead(1, PKT1_RAW, dev.id) + resp
    else if v == 2 then ServerPacket2(PKT2_CMD_RESP, result, dev.id, resp)
    else ServerPacket(PKT3_CMD_RESP, 0, dev, resp)
  }

  lemma CommandAnswerRead(v: u32, dev: DevId, result: u32, resp: bytes)
    requires Supported(v) && |resp| < PAYLOAD_LIMIT
    ensures var r := DecodeIn(v, CommandAnswer(v, dev, result, resp));
            r.Understood? && r.stored == None && r.data == if v == 2 then Be32(result) + resp else resp
  {
    hide DecodeReply, DecodeReply1, DecodeReply2, ServerPacket, ServerPacket2, ShortHead, Be32;
    if v == 1 {
      RawResponseRoundTrip(dev.id, resp);
    } else if v == 2 {
      CommandResponse2RoundTrip(dev.id, result, resp);
    } else {
      CommandResponseRoundTrip(dev, resp);
    }
  }

  /** The application gets the bytes that the device answered with. */
  lemma CommandAsAnswered(net: Network, tick: nat, v: u32, dev: DevId, data: bytes, respLen: u32, result: u32, resp: bytes)
    requires Supported(v) && |data| < SIZE_LIMIT && |resp| < PAYLOAD_LIMIT
    ensures net.answer(tick, CommandRequest(v, dev, data, respLen)) == Message(CommandAnswer(v, dev, result, resp)) ==>
      TryCommand(net, tick, v, dev, data, respLen) == (if v == 2 then Be32(result) + resp else resp, 0)
    ensures v == 3 && net.answer(tick, CommandRequest(v, dev, data, respLen)) == Message(ErrorAnswer(result, dev)) ==>
      TryCommand(net, tick, v, dev, data, respLen) == ([], result)
  {
    hide CommandRequest, CommandAnswer, ErrorAnswer, DecodeIn, DecodeReply, Be32;
    CommandAnswerRead(v, dev, result, resp);
    ErrorAnswerRead(result, dev);
    LastDecoder(ErrorAnswer(result, dev));
  }

  // ---------------------------------------------------------------- what the servers see

  /** The server of version 3 sees an opening or closing of the client's device, a request for the list,
      one for the version, and a command with its bytes. */
  lemma ServerSees3(dev: DevId, data: bytes, respLen: u32)
    requires |data| < SIZE_LIMIT
    ensures DecodeRequest(OpenRequest(3, dev)) == Accepted(1, dev, [], 0)
    ensures DecodeRequest(CloseRequest(3, dev)) == Accepted(2, dev, [], 0)
    ensures DecodeRequest(CommandRequest(3, dev, data, respLen)) == Accepted(3, dev, data, respLen)
    ensures DecodeRequest(EnumRequest(3)) == Accepted(4, NO_ID, [], 0)
    ensures DecodeRequest(VersionRequest()) == Accepted(5, NO_ID, [], 0)
  {
    hide DecodeRequest, ClientPacket, CmdRequest;
    PlainRequestRoundTrip(PKT3_OPEN_REQ, dev, 0);
    PlainRequestRoundTrip(PKT3_CLOSE_REQ, dev, 0);
    PlainRequestRoundTrip(PKT3_ENUM_REQ, NO_ID, 0);
    PlainRequestRoundTrip(PKT3_VER_REQ, NO_ID, 0);
    CommandRoundTrip(dev, data, respLen);
  }

  /** The server of version 2 sees an opening or closing of the device's serial number, and a command. */
  lemma ServerSees2(dev: DevId, data: bytes, respLen: u32)
    requires |data| < SIZE_LIMIT
    ensures HasCid(OpenRequest(2, dev)) && DecodeRequest2(OpenRequest(2, dev)) == Accepted2(1, dev.id, [], [], 0)
    ensures HasCid(CloseRequest(2, dev)) && DecodeRequest2(CloseRequest(2, dev)) == Accepted2(2, dev.id, [], [], 0)
    ensures |data| >= 4 ==>
      var b := CommandRequest(2, dev, data, respLen);
      HasCid(b) && DecodeRequest2(b) == Accepted2(3, dev.id, data[..4], data[4..], (respLen - 4) % 0x1_0000_0000)
  {
    hide DecodeRequest2, ClientPacket2, CmdRequest2, HasCid;
    PlainRequest2RoundTrip(PKT_OPEN_REQ, dev.id);
    PlainRequest2RoundTrip(PKT_CLOSE_REQ, dev.id);
    if |data| >= 4 {
      Command2RoundTrip(dev.id, data, respLen);
    }
  }

  /** A device of version 1 finds the type, the serial number, and behind them the bytes of a command. */
  lemma DeviceSees1(dev: DevId, data: bytes, respLen: u32)
    requires |data| < SIZE_LIMIT
    ensures Sees1(OpenRequest(1, dev), 1, dev.id, [])
    ensures Sees1(CloseRequest(1, dev), 2, dev.id, [])
    ensures Sees1(CommandRequest(1, dev, data, respLen), 0, dev.id, data)
    ensures Sees1(EnumRequest(1), 3, 0, [0, 0, 0, 0])
  {
    hide ShortHead;
    Be32Zero();
    ShortHeadFields(1, PKT_OPEN_REQ, dev.id, []);
    ShortHeadFields(1, PKT_CLOSE_REQ, dev.id, []);
    ShortHeadFields(1, PKT1_RAW, dev.id, data);
    ShortHeadFields(1, PKT1_ENUM_REQ, 0, Be32(0));
    hide Be32, U32At;
  }

  predicate Sees1(b: bytes, pckt: u32, serial: u32, tail: bytes) {
    |b| >= 24 && TypeOf(b) == pckt && U32At(b, 12) == serial && b[24..] == tail
  }

  lemma Be32Zero()
    ensures Be32(0) == [0, 0, 0, 0]
  {
    assert Be(0, 2) == [0, 0];
  }

  /** The numbers by which the client tells the answers apart. */
  lemma AnswerTypes(v: u32, val: u32, dev: DevId, resp: bytes, devs: seq<DevId>)
    requires Supported(v) && |resp| < PAYLOAD_LIMIT && 12 * |devs| < PAYLOAD_LIMIT
    ensures TypeOf(OpenAnswer(v, val, dev)) == 0xFF
    ensures TypeOf(CloseAnswer(v, val, dev)) == 0xFE
    ensures TypeOf(CommandAnswer(v, dev, val, resp)) == if v == 1 then 0 else 0xFD
    ensures TypeOf(ListAnswer(devs)) == 0xFC
    ensures TypeOf(VersionAnswer(val, dev)) == 0xFB
    ensures TypeOf(ErrorAnswer(val, dev)) == 0xFA
  {
    hide ServerPacket, ServerPacket2, ShortHead, Be32, U32At;
    TypeOfLong(PKT3_VER_RESP, val, dev, []);
    TypeOfLong(PKT3_ERROR_RESP, val, dev, []);
    ResponseLength(devs);
    TypeOfLong(PKT3_ENUM_RESP, 0, NO_ID, ListBytes(devs));
    if v == 3 {
      TypeOfLong(PKT3_OPEN_RESP, val, dev, []);
      TypeOfLong(PKT3_CLOSE_RESP, val, dev, []);
      TypeOfLong(PKT3_CMD_RESP, 0, dev, resp);
    } else {
      ShortHeadFields(v, PKT_OPEN_RESP, dev.id, Be32(val));
      ShortHeadFields(v, PKT_CLOSE_RESP, dev.id, Be32(val));
      ShortHeadFields(1, PKT1_RAW, dev.id, resp);
      ResponseFields2(PKT_OPEN_RESP, val, dev.id, []);
      ResponseFields2(PKT2_CMD_RESP, val, dev.id, resp);
    }
  }

  lemma TypeOfLong(pckt: u32, val: u32, dev: DevId, data: bytes)
    requires |data| < PAYLOAD_LIMIT
    ensures TypeOf(ServerPacket(pckt, val, dev, data)) == pckt
  {
    hide U32At;
    ResponseFields(pckt, val, dev, data);
  }

  /** An opening names the device of the URI: for a printed one, its id with `reserve` cut. */
  lemma OpensPrintedDevice(host: bytes, d: DevId, junk: DevId)
    requires GoodHost(host)
    ensures ConnRegistries.DeviceOf(UriText(host, d), junk) == d.(reserve := d.reserve % 0x1_0000)
  {
    hide UriText, ParseUri, GoodHost;
    UriParses(host, d);
  }

  // ---------------------------------------------------------------- whole calls

  /** What an opening call has to come to, for every server of the kinds above; `s` and `s'` are the
      library's states before and after. */
  ghost predicate OpensAsAnswered(net: Network, s: State, dev: DevId, err: u32, conn: u32, version: u32, s': State) {
    && (forall v: u32, val: u32 :: Supported(v) && Replies(net, s.tick, LAST_VERSION, dev, v, OpenAnswer(v, val, dev)) ==>
          if val == 1 then err == 0 && version == v && conn !in s.registry && s'.registry == s.registry[conn := Info(v, dev)]
          else err == 0xffbc && conn == CONN_INVALID && s'.registry == s.registry)
    && (forall code: u32 :: Replies(net, s.tick, LAST_VERSION, dev, 3, ErrorAnswer(code, dev)) ==>
          err == 0xffbc && conn == CONN_INVALID && s'.registry == s.registry)
  }

  lemma OpenCallAsAnswered(net: Network, s: State, uri: bytes, junk: DevId)
    requires FreshIds(net) && Inv(net, s)
    ensures var call, dev := OpenDevice(uri, junk), ConnRegistries.DeviceOf(uri, junk);
            var r := OpeningBy(net, s, call);
            OpensAsAnswered(net, s, dev, r.error, r.conn, if r.error == 0 then r.version else 0, Do(net, s, call))
  {
    hide Opening, OpenAnswer, ErrorAnswer, Replies, Given, ConnRegistries.DeviceOf;
    var call, dev := OpenDevice(uri, junk), ConnRegistries.DeviceOf(uri, junk);
    var r, s' := OpeningBy(net, s, call), Do(net, s, call);
    if r.error == 0 {
      OpenedIsNew(net, s, call);
    }
    forall v: u32, val: u32 | Supported(v) && Replies(net, s.tick, LAST_VERSION, dev, v, OpenAnswer(v, val, dev))
      ensures if val == 1 then r.error == 0 && r.version == v && r.conn !in s.registry
                               && s'.registry == s.registry[r.conn := Info(v, dev)]
              else r.error == 0xffbc && r.conn == CONN_INVALID && s'.registry == s.registry
    {
      OpeningAsAnswered(net, s.tick, s.base, dev, v, val);
    }
    forall code: u32 | Replies(net, s.tick, LAST_VERSION, dev, 3, ErrorAnswer(code, dev))
      ensures r.error == 0xffbc && r.conn == CONN_INVALID && s'.registry == s.registry
    {
      OpeningRefused(net, s.tick, s.base, dev, code);
    }
  }

  /** What an enumeration call has to come to: number, records, and the text for the application. */
  ghost predicate ListsAsAnswered(net: Network, tick: nat, host: bytes, err: u32, count: u32, data: bytes, text: bytes) {
    && (forall devs: seq<DevId> ::
          12 * |devs| < PAYLOAD_LIMIT && ListsWith(net, tick, LAST_VERSION, 3, ListAnswer(devs)) ==>
            && err == 0 && count == |devs| && data == ListBytes(devs)
            && (GoodHost(host) && (|host| + 40) * |devs| < SIZE_LIMIT ==> ParsedUris(text) == UrisOf(host, devs)))
    && (forall b: Packet :: IsList1(b) && ListsWith(net, tick, LAST_VERSION, 1, b) ==>
          var ds := Serials(b, 16, U32At(b, 12));
          && err == 0 && count == |ds| && data == ListBytes(ds)
          && (GoodHost(host) && (|host| + 40) * |ds| < SIZE_LIMIT ==> ParsedUris(text) == SerialUris(host, ds)))
  }

  lemma EnumerateCallAsAnswered(net: Network, tick: nat, v: u32, host: bytes)
    requires Supported(v)
    ensures var r := Enumerating(net, tick, v, LAST_VERSION);
            r.error == 0 ==> ListsAsAnswered(net, tick, host, 0, r.count, r.data, CallText(host, r.count, r.data))
    ensures var r := Enumerating(net, tick, v, LAST_VERSION);
            r.error != 0 ==> forall count: u32, data: bytes, text: bytes ::
              ListsAsAnswered(net, tick, host, r.error, count, data, text)
  {
    hide Enumerating, ListsWith, ListAnswer, CallText, ParsedUris, UrisOf, SerialUris, ListBytes, GoodHost, IsList1, Serials;
    forall devs: seq<DevId> | 12 * |devs| < PAYLOAD_LIMIT && ListsWith(net, tick, LAST_VERSION, 3, ListAnswer(devs))
      ensures ListedBy(net, tick, v, host, devs, UrisOf(host, devs))
    {
      EnumeratingAsListed(net, tick, v, devs);
      if GoodHost(host) && (|host| + 40) * |devs| < SIZE_LIMIT {
        ListedText(host, devs);
      }
    }
    forall b: Packet | IsList1(b) && ListsWith(net, tick, LAST_VERSION, 1, b)
      ensures Fitting1(b) && var ds := Serials(b, 16, U32At(b, 12)); ListedBy(net, tick, v, host, ds, SerialUris(host, ds))
    {
      EnumeratingAsListed1(net, tick, v, b);
      ListFits1(b);
      var ds := Serials(b, 16, U32At(b, 12));
      if GoodHost(host) && (|host| + 40) * |ds| < SIZE_LIMIT {
        ListedText(host, ds);
        SerialsAreShort(host, b, 16, U32At(b, 12));
      }
    }
  }

  predicate Fitting1(b: bytes) {
    |b| >= 16 && 16 + 180 * U32At(b, 12) <= |b|
  }

  lemma ListFits1(b: bytes)
    requires IsList1(b)
    ensures Fitting1(b)
  {
  }

  /** The call succeeds with `devs`, and its text parses to `uris`. */
  ghost predicate ListedBy(net: Network, tick: nat, v: u32, host: bytes, devs: seq<DevId>, uris: seq<UriResult>) {
    var r := Enumerating(net, tick, v, LAST_VERSION);
    && r.error == 0 && r.count == |devs| && r.data == ListBytes(devs)
    && (GoodHost(host) && (|host| + 40) * |devs| < SIZE_LIMIT ==> ParsedUris(CallText(host, r.count, r.data)) == uris)
  }

  /** What a version query has to come to. */
  ghost predicate VersionsAsAnswered(net: Network, tick: nat, err: u32, major: Option<u8>) {
    net.connect(tick) != CONN_INVALID ==>
      && (forall val: u32, dev: DevId :: net.answer(tick + 1, VersionRequest()) == Message(VersionAnswer(val, dev)) ==>
            err == 0 && major == Some(3))
      && (forall code: u32, dev: DevId :: net.answer(tick + 1, VersionRequest()) == Message(ErrorAnswer(code, dev)) ==>
            err == code)
  }

  lemma QueryCallAsAnswered(net: Network, tick: nat)
    ensures var (major, err) := if net.connect(tick) == CONN_INVALID then (None, ERR_NO_CONNECTION) else VersionReply(net, tick + 1);
            VersionsAsAnswered(net, tick, err, major)
  {
    hide VersionReply, VersionRequest, VersionAnswer, ErrorAnswer;
    forall val: u32, dev: DevId
      ensures net.answer(tick + 1, VersionRequest()) == Message(VersionAnswer(val, dev)) ==>
                VersionReply(net, tick + 1) == (Some(3), 0)
      ensures net.answer(tick + 1, VersionRequest()) == Message(ErrorAnswer(val, dev)) ==>
                VersionReply(net, tick + 1).1 == val
    {
      VersionAsAnswered(net, tick + 1, val, dev);
    }
  }

  /** The command meets the answer `b`. */
  ghost predicate Meets(net: Network, tick: nat, i: Info, data: bytes, respLen: u32, b: Packet)
    requires Supported(i.version) && |data| < SIZE_LIMIT
  {
    net.answer(tick, CommandRequest(i.version, i.dev, data, respLen)) == Message(b)
  }

  /** What a command has to come to: `resp` are the bytes for the application, cut to `respLen`. */
  ghost predicate CommandsAsAnswered(net: Network, tick: nat, i: Info, data: bytes, respLen: u32, err: u32, resp: bytes)
    requires Supported(i.version) && |data| < SIZE_LIMIT
  {
    && (forall result: u32, out: bytes ::
          |out| < PAYLOAD_LIMIT && Meets(net, tick, i, data, respLen, CommandAnswer(i.version, i.dev, result, out)) ==>
            err == 0 && resp == UpTo(if i.version == 2 then Be32(result) + out else out, respLen))
    && (forall code: u32 :: i.version == 3 && Meets(net, tick, i, data, respLen, ErrorAnswer(code, i.dev)) ==>
          err == code && resp == [])
  }

  function UpTo(s: bytes, n: nat): bytes {
    if |s| <= n then s else s[..n]
  }

  lemma CommandCallAsAnswered(net: Network, tick: nat, i: Info, data: bytes, respLen: u32)
    requires Supported(i.version) && |data| < SIZE_LIMIT
    ensures var (out, err) := TryCommand(net, tick, i.version, i.dev, data, respLen);
            CommandsAsAnswered(net, tick, i, data, respLen, err, UpTo(out, respLen))
  {
    hide TryCommand, CommandRequest, CommandAnswer, ErrorAnswer, Be32;
    forall result: u32, out: bytes
      | |out| < PAYLOAD_LIMIT && Meets(net, tick, i, data, respLen, CommandAnswer(i.version, i.dev, result, out))
      ensures TryCommand(net, tick, i.version, i.dev, data, respLen) == (if i.version == 2 then Be32(result) + out else out, 0)
    {
      CommandAsAnswered(net, tick, i.version, i.dev, data, respLen, result, out);
    }
    forall code: u32 | i.version == 3 && Meets(net, tick, i, data, respLen, ErrorAnswer(code, i.dev))
      ensures TryCommand(net, tick, i.version, i.dev, data, respLen) == ([], code)
    {
      CommandAsAnswered(net, tick, 3, i.dev, data, respLen, code, []);
    }
  }
}
