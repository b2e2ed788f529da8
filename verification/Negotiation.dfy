/**
 How a client finds out which protocol version a server speaks: it tries one version after the
 other, and follows the version of an answer that is not in its own.

 The network is a value that says what every connection attempt and every request will meet, so
 that it can be arbitrary, and so that particular servers can be described.
*/
module Negotiations {
  import opened Words
  import opened Bytes
  import opened MBufs
  import opened DevIds
  import opened Protocol3s
  import opened Protocol3Laws
  import opened Protocol12s

  const ERR_NO_PROTOCOL: u32 := 1
  const ERR_NO_CONNECTION: u32 := 2
  const ERR_SEND_DATA: u32 := 5
  const ERR_RECV_TIMEOUT: u32 := 7
  const ERR_ANOTHER_PROTOCOL: u32 := 8
  const ERR_NULLPTR_PARAM: u32 := 9
  const ERR_DEVICE_OPEN: u32 := 0xffbc

  const LAST_VERSION: u32 := 3
  const CONN_INVALID: u32 := 0

  type Packet = b: bytes | |b| < SIZE_LIMIT witness []

  /** What becomes of a request: it cannot be sent, nothing comes back in time, or a packet does. */
  datatype Answer = NotSent | Silent | Message(b: Packet)

  /** Everything the environment will do, by the number of events so far. A connection attempt that
      fails in any way gives the invalid id. */
  datatype Network = Network(connect: nat -> u32, answer: (nat, bytes) -> Answer)

  predicate Supported(v: u32) {
    1 <= v <= LAST_VERSION
  }

  /** The version of a packet is its fourth byte; a shorter one has version 0. */
  function VersionOf(b: bytes): u32 {
    if |b| > 3 then b[3] else 0
  }

  function Decrement(v: u32): u32 {
    if v > 1 then v - 1 else LAST_VERSION
  }

  // ---------------------------------------------------------------- one exchange

  function OpenRequest(v: u32, dev: DevId): bytes
    requires Supported(v)
  {
    if v == 1 then ClientPacket1(PKT_OPEN_REQ, dev.id, [])
    else if v == 2 then ClientPacket2(PKT_OPEN_REQ, dev.id, [])
    else ClientPacket(PKT3_OPEN_REQ, dev, 0, [])
  }

  /** Version 2 has no enumeration. */
  function EnumRequest(v: u32): bytes
    requires Supported(v)
  {
    if v == 1 then ClientPacket1(PKT1_ENUM_REQ, 0, [])
    else if v == 2 then []
    else ClientPacket(PKT3_ENUM_REQ, NO_ID, 0, [])
  }

  function CloseRequest(v: u32, dev: DevId): bytes
    requires Supported(v)
  {
    if v == 1 then ClientPacket1(PKT_CLOSE_REQ, dev.id, [])
    else if v == 2 then ClientPacket2(PKT_CLOSE_REQ, dev.id, [])
    else ClientPacket(PKT3_CLOSE_REQ, dev, 0, [])
  }

  /** The version is asked for in version 3. */
  function VersionRequest(): bytes {
    ClientPacket(PKT3_VER_REQ, NO_ID, 0, [])
  }

  /** Version 1 has no room for the length of the answer. */
  function CommandRequest(v: u32, dev: DevId, data: bytes, respLen: u32): bytes
    requires Supported(v) && |data| < SIZE_LIMIT
  {
    if v == 1 then ClientPacket1(PKT1_RAW, dev.id, data)
    else if v == 2 then CmdRequest2(dev.id, data, respLen)
    else CmdRequest(dev, data, respLen)
  }

  function DecodeIn(v: u32, b: Packet): Reply
    requires Supported(v)
  {
    if v == 1 then DecodeReply1(b) else if v == 2 then DecodeReply2(b) else DecodeReply(b)
  }

  /** The reply to an open or close request says that it was done. */
  predicate Positive(v: u32, pckt: u32, result: u32) {
    !(v == 3 && pckt == PKT3_ERROR_RESP) && result == 1
  }

  /** What an answer in the right version means for an opening. */
  function AnswerError(v: u32, b: Packet): u32
    requires Supported(v)
  {
    match DecodeIn(v, b)
    case Rejected(e) => e
    case Understood(p, r, _, _) => if Positive(v, p, r) then 0 else ERR_DEVICE_OPEN
  }

  datatype Attempt = Attempt(version: u32, error: u32, tick: nat)

  function TryOpen(net: Network, tick: nat, v: u32, dev: DevId): Attempt {
    if !Supported(v) then Attempt(v, ERR_NO_PROTOCOL, tick)
    else match net.answer(tick, OpenRequest(v, dev))
      case NotSent => Attempt(v, ERR_SEND_DATA, tick + 1)
      case Silent => Attempt(v, ERR_RECV_TIMEOUT, tick + 1)
      case Message(b) =>
        if VersionOf(b) != v then Attempt(VersionOf(b), ERR_ANOTHER_PROTOCOL, tick + 1)
        else Attempt(v, AnswerError(v, b), tick + 1)
  }

  datatype Listing = Listing(version: u32, error: u32, count: u32, data: bytes, tick: nat)

  /** An error packet is understood as a list, with its code as the length and as the error. */
  function TryEnum(net: Network, tick: nat, v: u32): Listing {
    if !Supported(v) || EnumRequest(v) == [] then Listing(v, ERR_NO_PROTOCOL, 0, [], tick)
    else match net.answer(tick, EnumRequest(v))
      case NotSent => Listing(v, ERR_SEND_DATA, 0, [], tick + 1)
      case Silent => Listing(v, ERR_RECV_TIMEOUT, 0, [], tick + 1)
      case Message(b) =>
        if VersionOf(b) != v then Listing(VersionOf(b), ERR_ANOTHER_PROTOCOL, 0, [], tick + 1)
        else match DecodeIn(v, b)
          case Rejected(e) => Listing(v, e, 0, [], tick + 1)
          case Understood(_, r, data, stored) =>
            Listing(v, if stored.Some? then stored.value else 0, r, data, tick + 1)
  }

  /** What a version query gives: the version's low byte, and the error. The version of the answer
      itself is not looked at. */
  function VersionReply(net: Network, tick: nat): (Option<u8>, u32) {
    match net.answer(tick, VersionRequest())
    case NotSent => (None, ERR_SEND_DATA)
    case Silent => (None, ERR_RECV_TIMEOUT)
    case Message(b) =>
      match DecodeReply(b)
      case Rejected(_) => (None, ERR_NO_PROTOCOL)
      case Understood(_, r, _, stored) => (Some(r % 256), if stored.Some? then stored.value else 0)
  }

  /** Whether a device was closed, which is not described for an answer that is rejected, and the error. */
  datatype Closing = Closing(done: Option<bool>, error: u32)

  function TryClose(net: Network, tick: nat, v: u32, dev: DevId): Closing
    requires Supported(v)
  {
    match net.answer(tick, CloseRequest(v, dev))
    case NotSent => Closing(Some(false), ERR_SEND_DATA)
    case Silent => Closing(Some(false), ERR_RECV_TIMEOUT)
    case Message(b) =>
      match DecodeIn(v, b)
      case Rejected(e) => Closing(None, e)
      case Understood(p, r, _, _) =>
        Closing(Some(Positive(v, p, r)), if v == 3 && p == PKT3_ERROR_RESP then ERR_DEVICE_LOST else 0)
  }

  /** The bytes that answer a command, and the error. */
  function TryCommand(net: Network, tick: nat, v: u32, dev: DevId, data: bytes, respLen: u32): (bytes, u32)
    requires Supported(v) && |data| < SIZE_LIMIT
  {
    match net.answer(tick, CommandRequest(v, dev, data, respLen))
    case NotSent => ([], ERR_SEND_DATA)
    case Silent => ([], ERR_RECV_TIMEOUT)
    case Message(b) =>
      match DecodeIn(v, b)
      case Rejected(e) => ([], e)
      case Understood(_, _, resp, stored) => (resp, if stored.Some? then stored.value else 0)
  }

  // ---------------------------------------------------------------- the loops

  /** `tried` is the version of every connection that was made, in order. */
  datatype Outcome = Outcome(tried: seq<u32>, version: u32, error: u32, conn: u32, tick: nat)

  /** Opening a device with `n` more rounds to go. */
  function Opening(net: Network, tick: nat, v: u32, dev: DevId, n: nat): Outcome
    requires n > 0
    decreases n
  {
    var id := net.connect(tick);
    if id == CONN_INVALID then Outcome([], v, ERR_NO_CONNECTION, CONN_INVALID, tick + 1)
    else
      var a := TryOpen(net, tick + 1, v, dev);
      if a.error == ERR_ANOTHER_PROTOCOL then
        var id' := net.connect(a.tick);
        if id' == CONN_INVALID then Outcome([v], a.version, ERR_NO_CONNECTION, CONN_INVALID, a.tick + 1)
        else
          var b := TryOpen(net, a.tick + 1, a.version, dev);
          Outcome([v, a.version], b.version, b.error, if b.error == 0 then id' else CONN_INVALID, b.tick)
      else if a.error == ERR_RECV_TIMEOUT then
        if n == 1 then Outcome([v], Decrement(v), a.error, CONN_INVALID, a.tick)
        else
          var r := Opening(net, a.tick, Decrement(v), dev, n - 1);
          r.(tried := [v] + r.tried)
      else Outcome([v], a.version, a.error, if a.error == 0 then id else CONN_INVALID, a.tick)
  }

  datatype Enumeration = Enumeration(tried: seq<u32>, error: u32, count: u32, data: bytes, tick: nat)

  /** Enumerating with `n` more rounds to go. */
  function Enumerating(net: Network, tick: nat, v: u32, n: nat): Enumeration
    requires n > 0
    decreases n
  {
    if net.connect(tick) == CONN_INVALID then Enumeration([], ERR_NO_CONNECTION, 0, [], tick + 1)
    else
      var a := TryEnum(net, tick + 1, v);
      if a.error == ERR_ANOTHER_PROTOCOL then
        if net.connect(a.tick) == CONN_INVALID then Enumeration([v], ERR_NO_CONNECTION, a.count, a.data, a.tick + 1)
        else
          var b := TryEnum(net, a.tick + 1, a.version);
          Enumeration([v, a.version], b.error, b.count, b.data, b.tick)
      else if a.error == ERR_RECV_TIMEOUT || a.error == ERR_NO_PROTOCOL then
        if n == 1 then Enumeration([v], a.error, a.count, a.data, a.tick)
        else
          var r := Enumerating(net, a.tick, Decrement(a.version), n - 1);
          r.(tried := [v] + r.tried)
      else Enumeration([v], a.error, a.count, a.data, a.tick)
  }

  // ---------------------------------------------------------------- against any server

  /**
   Whatever the network does: at most one connection more than there are rounds is made; the opening
   succeeds if and only if there is a connection in the end, which is then one that was made during
   the opening, in a supported version, the last one tried.
  */
  lemma {:induction false} OpeningEnds(net: Network, tick: nat, v: u32, dev: DevId, n: nat)
    requires n > 0 && Supported(v)
    ensures var r := Opening(net, tick, v, dev, n);
            && |r.tried| <= n + 1
            && tick < r.tick <= tick + 2 * n + 2
            && (r.error == 0 <==> r.conn != CONN_INVALID)
            && (r.error == 0 ==> Supported(r.version) && r.tried != [] && r.tried[|r.tried| - 1] == r.version)
            && (r.error == 0 ==> exists j: nat :: tick <= j < r.tick && net.connect(j) == r.conn)
    decreases n
  {
    hide TryOpen;
    var a := TryOpen(net, tick + 1, v, dev);
    TryOpenFacts(net, tick + 1, v, dev);
    if net.connect(tick) != CONN_INVALID {
      if a.error == ERR_ANOTHER_PROTOCOL {
        TryOpenFacts(net, a.tick + 1, a.version, dev);
      } else if a.error == ERR_RECV_TIMEOUT && n > 1 {
        OpeningEnds(net, a.tick, Decrement(v), dev, n - 1);
      }
    }
  }

  lemma TryOpenFacts(net: Network, tick: nat, v: u32, dev: DevId)
    ensures var a := TryOpen(net, tick, v, dev);
            && tick <= a.tick <= tick + 1
            && (a.error != ERR_ANOTHER_PROTOCOL ==> a.version == v)
            && (a.error == 0 ==> Supported(v))
  {
    hide DecodeIn, OpenRequest;
    if Supported(v) && net.answer(tick, OpenRequest(v, dev)).Message? {
      RejectionIsError(v, net.answer(tick, OpenRequest(v, dev)).b);
    }
  }

  // ---------------------------------------------------------------- against particular servers

  predicate Accepting(v: u32, b: Packet)
    requires Supported(v)
  {
    VersionOf(b) == v && DecodeIn(v, b).Understood? && Positive(v, DecodeIn(v, b).pckt, DecodeIn(v, b).result)
  }

  lemma AcceptingIff(v: u32, b: Packet)
    requires Supported(v)
    ensures Accepting(v, b) <==> VersionOf(b) == v && AnswerError(v, b) == 0
  {
    hide DecodeIn;
    RejectionIsError(v, b);
  }

  /** How many network events a call with `n` rounds can cause. */
  function Events(n: nat): nat {
    2 * n + 2
  }

  /** While a call with `n` rounds can last, the server can be reached, opens devices in version `s`,
      and ignores other versions. */
  ghost predicate SpeaksOnly(net: Network, tick: nat, n: nat, dev: DevId, s: u32)
    requires Supported(s)
  {
    forall k: nat :: tick <= k < tick + Events(n) ==> SpeaksOnlyAt(net, k, dev, s)
  }

  ghost predicate SpeaksOnlyAt(net: Network, k: nat, dev: DevId, s: u32)
    requires Supported(s)
  {
    && net.connect(k) != CONN_INVALID
    && (var a := net.answer(k, OpenRequest(s, dev)); a.Message? && Accepting(s, a.b))
    && forall v: u32 :: Supported(v) && v != s ==> net.answer(k, OpenRequest(v, dev)) == Silent
  }

  /** The number of steps down from `v` to `s`, around the corner from 1 to 3. */
  function StepsDown(v: u32, s: u32): nat
    requires Supported(v) && Supported(s)
  {
    if v >= s then v - s else v + LAST_VERSION - s
  }

  function Downwards(v: u32, n: nat): seq<u32>
    decreases n
  {
    if n == 0 then [v] else [v] + Downwards(Decrement(v), n - 1)
  }

  /** The version of a server that ignores the others is found from any start within three tries. */
  lemma {:induction false} NegotiatesDownTo(net: Network, tick: nat, v: u32, dev: DevId, s: u32, n: nat)
    requires Supported(v) && Supported(s) && SpeaksOnly(net, tick, n, dev, s) && StepsDown(v, s) < n
    ensures var r := Opening(net, tick, v, dev, n);
            r.error == 0 && r.version == s && r.conn != CONN_INVALID && r.tried == Downwards(v, StepsDown(v, s))
    decreases n
  {
    hide AnswerError, Accepting, OpenRequest;
    assert SpeaksOnlyAt(net, tick, dev, s) && SpeaksOnlyAt(net, tick + 1, dev, s);
    if v == s {
      AcceptingIff(s, net.answer(tick + 1, OpenRequest(s, dev)).b);
    } else {
      assert net.answer(tick + 1, OpenRequest(v, dev)) == Silent;
      hide SpeaksOnlyAt;
      assert TryOpen(net, tick + 1, v, dev) == Attempt(v, ERR_RECV_TIMEOUT, tick + 2);
      hide TryOpen;
      NegotiatesDownTo(net, tick + 2, Decrement(v), dev, s, n - 1);
    }
  }

  lemma NegotiationSucceeds(net: Network, tick: nat, v: u32, dev: DevId, s: u32)
    requires Supported(v) && Supported(s) && SpeaksOnly(net, tick, LAST_VERSION, dev, s)
    ensures var r := Opening(net, tick, v, dev, LAST_VERSION);
            r.error == 0 && r.version == s && |r.tried| == StepsDown(v, s) + 1 <= 3
  {
    hide Opening, SpeaksOnly;
    NegotiatesDownTo(net, tick, v, dev, s, LAST_VERSION);
    assert |Downwards(v, 0)| == 1 && |Downwards(v, 1)| == 2 && |Downwards(v, 2)| == 3;
  }

  /** While a call with `n` rounds can last, the server can be reached and answers every request in
      version `s`, supported by the client or not. */
  ghost predicate AnswersIn(net: Network, tick: nat, n: nat, dev: DevId, s: u32) {
    forall k: nat :: tick <= k < tick + Events(n) ==> AnswersInAt(net, k, dev, s)
  }

  ghost predicate AnswersInAt(net: Network, k: nat, dev: DevId, s: u32) {
    && net.connect(k) != CONN_INVALID
    && forall v: u32 :: Supported(v) ==> var a := net.answer(k, OpenRequest(v, dev)); a.Message? && VersionOf(a.b) == s
  }

  /** The answer's version is taken over at once: the second and last try is in that version, and its
      result is the result of the opening. */
  lemma AnswerIsFollowed(net: Network, tick: nat, v: u32, dev: DevId, s: u32, n: nat)
    requires Supported(v) && n > 0 && AnswersIn(net, tick, n, dev, s) && v != s
    ensures var r := Opening(net, tick, v, dev, n);
            && r.tried == [v, s]
            && r.error == TryOpen(net, tick + 3, s, dev).error
            && (!Supported(s) ==> r.error == ERR_NO_PROTOCOL)
            && (Supported(s) ==>
                  var a := net.answer(tick + 3, OpenRequest(s, dev)); a.Message? && (r.error == 0 <==> Accepting(s, a.b)))
  {
    hide DecodeIn, OpenRequest;
    assert AnswersInAt(net, tick, dev, s) && AnswersInAt(net, tick + 1, dev, s);
    assert AnswersInAt(net, tick + 2, dev, s) && AnswersInAt(net, tick + 3, dev, s);
    var a := net.answer(tick + 1, OpenRequest(v, dev));
    assert a.Message? && VersionOf(a.b) == s;
    if Supported(s) {
      var b := net.answer(tick + 3, OpenRequest(s, dev));
      assert b.Message? && VersionOf(b.b) == s;
      RejectionIsError(s, b.b);
    }
  }

  lemma RejectionIsError(v: u32, b: Packet)
    requires Supported(v)
    ensures DecodeIn(v, b).Rejected? ==> DecodeIn(v, b).error in {ERR_PCKT_FMT, ERR_PCKT_INV, ERR_DEVICE_LOST}
  {
    hide U32At, TypeOf, BeValue, ReadRecords, ReadRecords1, LoopCount;
  }

  /** How servers answer an open request: the value says whether the device was opened. */
  function OpenAnswer(v: u32, val: u32, dev: DevId): (r: bytes)
    requires Supported(v)
    ensures |r| == if v == 3 then 36 else 28
  {
    if v == 1 then ShortHead(1, PKT_OPEN_RESP, dev.id) + Be32(val)
    else if v == 2 then ServerPacket2(PKT_OPEN_RESP, val, dev.id, [])
    else ServerPacket(PKT3_OPEN_RESP, val, dev, [])
  }

  lemma OpenAnswerRead(v: u32, val: u32, dev: DevId)
    requires Supported(v)
    ensures VersionOf(OpenAnswer(v, val, dev)) == v
    ensures DecodeIn(v, OpenAnswer(v, val, dev)) == Understood(PKT_OPEN_RESP, val, [], None)
  {
    hide IdBytes, U32At, ServerPayload, Be32;
    var b := OpenAnswer(v, val, dev);
    assert b[..4] == Be32(v);
    assert b[3] == Be32(v)[3];
    LastByte(v);
    if v == 3 {
      StatusResponseRoundTrip(PKT3_OPEN_RESP, val, dev);
    } else {
      StatusResponse2RoundTrip(PKT_OPEN_RESP, dev.id, val);
      ShortStatus(v, PKT_OPEN_RESP, dev.id, val);
    }
  }

  /** The packet types of versions 1 and 2 are the same for answers without data. */
  lemma ShortStatus(v: u32, pckt: u32, serial: u32, val: u32)
    requires v in {1, 2} && pckt in {PKT_OPEN_RESP, PKT_CLOSE_RESP}
    ensures DecodeIn(v, ShortHead(v, pckt, serial) + Be32(val)) == Understood(pckt, val, [], None)
  {
    hide U32At, ShortHead;
    var b := ShortHead(v, pckt, serial) + Be32(val);
    ShortHeadFields(v, pckt, serial, Be32(val));
    FieldAfter(ShortHead(v, pckt, serial), val, []);
    assert Be32(val) + [] == Be32(val);
  }

  /** The positive answers of the servers are accepted. */
  function PositiveAnswer(v: u32, dev: DevId): bytes
    requires Supported(v)
  {
    OpenAnswer(v, 1, dev)
  }

  lemma PositiveAnswerAccepted(v: u32, dev: DevId)
    requires Supported(v)
    ensures |PositiveAnswer(v, dev)| < SIZE_LIMIT && Accepting(v, PositiveAnswer(v, dev))
  {
    hide OpenAnswer, DecodeIn;
    OpenAnswerRead(v, 1, dev);
  }

  lemma LastByte(v: u32)
    requires v < 256
    ensures Be32(v)[3] == v
  {
  }

  lemma RequestVersion(v: u32, dev: DevId)
    requires Supported(v)
    ensures VersionOf(OpenRequest(v, dev)) == v
  {
    hide IdBytes;
    var b := OpenRequest(v, dev);
    assert b[..4] == Be32(v);
    assert b[3] == Be32(v)[3];
    LastByte(v);
  }

  // ---------------------------------------------------------------- enumeration

  /** While a call with `n` rounds can last, the server can be reached, answers enumerations in version
      `s` with a packet that is understood and stores no error, and ignores other versions. */
  ghost predicate ListsOnly(net: Network, tick: nat, n: nat, s: u32)
    requires Supported(s)
  {
    forall k: nat :: tick <= k < tick + Events(n) ==> ListsOnlyAt(net, k, s)
  }

  ghost predicate ListsOnlyAt(net: Network, k: nat, s: u32)
    requires Supported(s)
  {
    && net.connect(k) != CONN_INVALID
    && (EnumRequest(s) != [] ==>
          var a := net.answer(k, EnumRequest(s));
          a.Message? && VersionOf(a.b) == s && DecodeIn(s, a.b).Understood? && DecodeIn(s, a.b).stored == None)
    && (forall v: u32 :: Supported(v) && v != s && EnumRequest(v) != [] ==> net.answer(k, EnumRequest(v)) == Silent)
  }

  lemma {:induction false} EnumerationDownTo(net: Network, tick: nat, v: u32, s: u32, n: nat)
    requires Supported(v) && Supported(s) && s != 2 && ListsOnly(net, tick, n, s) && StepsDown(v, s) < n
    ensures var r := Enumerating(net, tick, v, n);
            r.error == 0 && r.tried == Downwards(v, StepsDown(v, s))
    decreases n
  {
    hide DecodeIn, ClientPacket, ClientPacket1;
    assert ListsOnlyAt(net, tick, s) && ListsOnlyAt(net, tick + 1, s);
    if v == s {
      RequestExists(s);
    } else if EnumRequest(v) == [] {
      EnumerationDownTo(net, tick + 1, Decrement(v), s, n - 1);
    } else {
      assert net.answer(tick + 1, EnumRequest(v)) == Silent;
      EnumerationDownTo(net, tick + 2, Decrement(v), s, n - 1);
    }
  }

  lemma RequestExists(v: u32)
    requires Supported(v)
    ensures EnumRequest(v) == [] <==> v == 2
  {
    hide Be32;
  }

  lemma {:induction false} EnumerationNeverFound(net: Network, tick: nat, v: u32, n: nat)
    requires Supported(v) && ListsOnly(net, tick, n, 2) && n > 0
    ensures Enumerating(net, tick, v, n).error in {ERR_NO_PROTOCOL, ERR_RECV_TIMEOUT}
    decreases n
  {
    hide DecodeIn, ClientPacket, ClientPacket1;
    assert ListsOnlyAt(net, tick, 2) && ListsOnlyAt(net, tick + 1, 2);
    if EnumRequest(v) == [] {
      if n > 1 {
        EnumerationNeverFound(net, tick + 1, Decrement(v), n - 1);
      }
    } else {
      assert v != 2;
      assert net.answer(tick + 1, EnumRequest(v)) == Silent;
      if n > 1 {
        EnumerationNeverFound(net, tick + 2, Decrement(v), n - 1);
      }
    }
  }

  /** Such a server is found from any start, unless it speaks only version 2, which has no enumeration. */
  lemma EnumerationSucceedsIff(net: Network, tick: nat, v: u32, s: u32)
    requires Supported(v) && Supported(s) && ListsOnly(net, tick, LAST_VERSION, s)
    ensures Enumerating(net, tick, v, LAST_VERSION).error == 0 <==> s != 2
  {
    hide Enumerating, ListsOnly;
    if s == 2 {
      EnumerationNeverFound(net, tick, v, LAST_VERSION);
    } else {
      EnumerationDownTo(net, tick, v, s, LAST_VERSION);
    }
  }

  // ---------------------------------------------------------------- such networks exist

  /** No valid connection id comes twice. */
  ghost predicate FreshIds(net: Network) {
    forall i: nat, j: nat :: i < j && net.connect(i) == net.connect(j) ==> net.connect(i) == CONN_INVALID
  }

  /** As many different ids as there are. */
  function NextId(k: nat): u32 {
    if k < UINT32_MAX then k + 1 else CONN_INVALID
  }

  /** A server that answers the requests of `asked`, each with the packet `reply`. */
  function OneServer(asked: bytes -> bool, reply: Packet): Network {
    Network((k: nat) => NextId(k), (k: nat, req: bytes) => if asked(req) then Message(reply) else Silent)
  }

  /** For every version there is a server that speaks only that version, never gives an id twice, and
      can be reached for more than four billion events. */
  lemma SpeakingServerExists(s: u32, dev: DevId, tick: nat, n: nat) returns (net: Network)
    requires Supported(s) && tick + Events(n) < UINT32_MAX
    ensures FreshIds(net) && SpeaksOnly(net, tick, n, dev, s)
  {
    hide DecodeIn, PositiveAnswer, OpenRequest;
    PositiveAnswerAccepted(s, dev);
    net := OneServer(req => req == OpenRequest(s, dev), PositiveAnswer(s, dev));
    forall v: u32 | Supported(v) && v != s ensures OpenRequest(v, dev) != OpenRequest(s, dev) {
      RequestVersion(v, dev);
      RequestVersion(s, dev);
    }
  }

  /** A server that answers everything in version `s`, supported or not. */
  lemma AnsweringServerExists(s: u8, dev: DevId, tick: nat, n: nat) returns (net: Network)
    requires tick + Events(n) < UINT32_MAX
    ensures FreshIds(net) && AnswersIn(net, tick, n, dev, s)
  {
    var reply: Packet := [0, 0, 0, s];
    net := OneServer(req => true, reply);
  }

  /** A server that enumerates, in version 1 or 3, or in version 2, where there is nothing to answer. */
  lemma ListingServerExists(s: u32, tick: nat, n: nat) returns (net: Network)
    requires Supported(s) && tick + Events(n) < UINT32_MAX
    ensures FreshIds(net) && ListsOnly(net, tick, n, s)
  {
    hide DecodeIn, EnumRequest, EmptyList;
    EmptyListUnderstood(s);
    RequestExists(s);
    net := OneServer(req => req == EnumRequest(s), EmptyList(s));
    forall v: u32 | Supported(v) && v != s && EnumRequest(v) != [] ensures EnumRequest(v) != EnumRequest(s) {
      EnumRequestVersion(v);
      EnumRequestVersion(s);
    }
  }

  /** The answers of servers without devices. */
  function EmptyList(v: u32): bytes
    requires Supported(v)
  {
    if v == 1 then ShortHead(1, PKT1_ENUM_RESP, 0) else if v == 2 then [] else EnumResponse([])
  }

  lemma EmptyListUnderstood(v: u32)
    requires Supported(v)
    ensures var b := EmptyList(v);
            |b| < SIZE_LIMIT && (v != 2 ==> VersionOf(b) == v && DecodeIn(v, b).Understood? && DecodeIn(v, b).stored == None)
  {
    hide IdBytes, U32At, DecodeReply;
    var b := EmptyList(v);
    if v != 2 {
      assert b[..4] == Be32(v);
      assert b[3] == Be32(v)[3];
      LastByte(v);
    }
    if v == 1 {
      assert b == ShortHead(1, PKT1_ENUM_RESP, 0) + [];
      ShortHeadFields(1, PKT1_ENUM_RESP, 0, []);
    } else if v == 3 {
      EnumRoundTrip([]);
    }
  }

  lemma EnumRequestVersion(v: u32)
    requires Supported(v)
    ensures VersionOf(EnumRequest(v)) == if v == 2 then 0 else v
  {
    hide IdBytes;
    if v != 2 {
      var b := EnumRequest(v);
      assert b[..4] == Be32(v);
      assert b[3] == Be32(v)[3];
      LastByte(v);
    }
  }
}
