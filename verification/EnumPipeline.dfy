/**
 From the server's device list to device URIs in the hands of the application: the list is
 encoded as an enumeration response, decoded by the client, printed as URIs that are separated by
 zeros, taken apart again at the zeros and parsed.
*/
module EnumPipeline {
  import opened Words
  import opened Bytes
  import opened MBufs
  import opened DevIds
  import opened Protocol3s
  import opened Protocol3Laws
  import opened Protocol12s
  import opened Scanfs
  import opened Uris

  // ---------------------------------------------------------------- printing

  /** One device: five writes, each of which may fail on its own. */
  function PutUri(c: Cursor, host: bytes, d: DevId): (r: Cursor)
    requires c.Ok()
    ensures r.Ok() && |r.data| == |c.data| && r.rdonly == c.rdonly
  {
    Put(Put(Put(Put(Put(c, XI_NET + SEPARATOR), host), [SLASH]), IdText(d)), [0])
  }

  /** The output and the input cursor after `count` devices. */
  function PutUris(c: Cursor, r: Cursor, host: bytes, count: nat): (res: (Cursor, Cursor))
    requires c.Ok() && r.Ok()
    ensures res.0.Ok() && res.1.Ok()
    decreases count
  {
    if count == 0 then (c, r) else PutUris(PutUri(c, host, ReadId(r, NO_ID)), SkipId(r), host, count - 1)
  }

  /** A text that is not empty gets one more zero. */
  function Finish(c: Cursor): (r: Cursor)
    requires c.Ok()
    ensures r.Ok()
  {
    if c.pos != 0 then Put(c, [0]) else c
  }

  method PrintUri(result: MBuf, server: bytes, d: DevId)
    requires result.Valid()
    modifies result, result.data
    ensures result.Valid() && result.View() == PutUri(old(result.View()), server, d)
  {
    hide Put, IdText;
    OneByte(SLASH);
    OneByte(0);
    var n1 := result.MemWrite(XI_NET + SEPARATOR);
    var n2 := result.MemWrite(server);
    result.Write(1, false, SLASH);
    var n3 := result.MemWrite(IdText(d));
    result.Write(1, false, 0);
  }

  lemma OneByte(v: u8)
    ensures Be(v, 1) == [v]
  {
    assert Be(v / 256, 0) == [];
  }

  method XiNetDevUris(result: MBuf, server: bytes, data: bytes, count: nat) returns (ok: bool)
    requires result.Valid() && |data| < SIZE_LIMIT
    modifies result, result.data
    ensures result.Valid()
    ensures var (c, r) := PutUris(old(result.View()), Fresh(data), server, count);
            result.View() == Finish(c) && ok == (!r.Broken() && !Finish(c).Broken())
  {
    hide PutUri, SkipId, ReadId, Put;
    var readBuf := new MBuf.Of(data, true);
    ghost var c0, r0 := result.View(), readBuf.View();
    var left := count;
    while left > 0
      invariant result.Valid() && readBuf.Valid() && fresh(readBuf) && fresh(readBuf.data)
      invariant 0 <= left <= count
      invariant PutUris(result.View(), readBuf.View(), server, left) == PutUris(c0, r0, server, count)
    {
      left := left - 1;
      var dev := ReadDevId(readBuf, NO_ID);
      PrintUri(result, server, dev);
    }
    ghost var c := result.View();
    assert PutUris(c, readBuf.View(), server, 0) == (c, readBuf.View());
    if result.pos != 0 {
      OneByte(0);
      result.Write(1, false, 0);
    }
    assert result.View() == Finish(c);
    ok := !readBuf.WasBroken() && !result.WasBroken();
  }

  // ---------------------------------------------------------------- what is printed

  /** The ids that `n` records spell. */
  function Records(b: bytes, i: nat, n: nat): (ds: seq<DevId>)
    requires i + 12 * n <= |b|
    ensures |ds| == n
    decreases n
  {
    if n == 0 then [] else [IdAt(b, i)] + Records(b, i + 12, n - 1)
  }

  lemma {:induction false} RecordsOf(b: bytes, i: nat, ds: seq<DevId>)
    requires i + 12 * |ds| <= |b| && b[i..i + 12 * |ds|] == ListBytes(ds)
    ensures Records(b, i, |ds|) == ds
    decreases |ds|
  {
    hide IdAt, IdBytes;
    if ds != [] {
      var w := b[i..i + 12 * |ds|];
      assert w[..12] == IdBytes(ds[0]) && w[12..] == ListBytes(ds[1..]);
      assert b[i..i + 12] == w[..12] && b[i + 12..i + 12 + 12 * |ds[1..]|] == w[12..];
      IdAtIs(b, i, ds[0]);
      RecordsOf(b, i + 12, ds[1..]);
    }
  }

  /** The URIs of a list, each ended by a zero. */
  function UriLines(host: bytes, ds: seq<DevId>): (r: bytes)
    ensures |r| == (|host| + 35) * |ds|
  {
    if ds == [] then []
    else
      LineLength(|host|, |ds|);
      UriText(host, ds[0]) + [0] + UriLines(host, ds[1..])
  }

  lemma LineLength(h: nat, n: nat)
    requires n > 0
    ensures (h + 35) * n == (h + 35) + (h + 35) * (n - 1)
  {
  }

  lemma PutUriFits(c: Cursor, host: bytes, d: DevId)
    requires c.Ok() && !c.rdonly && c.Rest() >= |host| + 35
    ensures var r := PutUri(c, host, d);
            r.Written() == c.Written() + (UriText(host, d) + [0]) && r.fails == c.fails && r.pos == c.pos + |host| + 35
  {
    hide Put, IdText;
    var c1 := Put(c, XI_NET + SEPARATOR);
    var c2 := Put(c1, host);
    var c3 := Put(c2, [SLASH]);
    var c4 := Put(c3, IdText(d));
    var c5 := Put(c4, [0]);
    assert c5.Written() == c.Written() + (XI_NET + SEPARATOR) + host + [SLASH] + IdText(d) + [0];
  }

  /** With room for them, `count` devices are printed as their URIs, and nothing fails. */
  lemma {:induction false} PrintedLines(c: Cursor, r: Cursor, host: bytes, count: nat)
    requires c.Ok() && r.Ok() && !c.rdonly && c.Rest() >= (|host| + 35) * count && r.Rest() >= 12 * count
    ensures var (c', r') := PutUris(c, r, host, count);
            && c'.Written() == c.Written() + UriLines(host, Records(r.data, r.pos, count))
            && c'.fails == c.fails && |c'.data| == |c.data| && c'.rdonly == c.rdonly
            && r'.fails == r.fails
    decreases count
  {
    hide PutUri, SkipId, ReadId, UriText, IdAt;
    if count == 0 {
      assert c.Written() + [] == c.Written();
    } else {
      LineLength(|host|, count);
      assert (|host| + 35) * (count - 1) >= 0;
      var d := ReadId(r, NO_ID);
      ReadIdIs(r, NO_ID);
      PutUriFits(c, host, d);
      var c1, r1 := PutUri(c, host, d), SkipId(r);
      PrintedLines(c1, r1, host, count - 1);
      var ds := Records(r.data, r.pos, count);
      assert ds[0] == d && ds[1..] == Records(r1.data, r1.pos, count - 1);
      assert c1.Written() + UriLines(host, ds[1..]) == c.Written() + UriLines(host, ds);
    }
  }

  /** What the client hands out for a decoded enumeration: nothing for an empty list, else the text
      that was printed into a buffer of `(|host| + 40) * count` bytes. */
  function ListText(host: bytes, data: bytes, count: nat): bytes
    requires |data| < SIZE_LIMIT && (|host| + 40) * count < SIZE_LIMIT
  {
    if count == 0 then []
    else
      var (c, _) := PutUris(Blank((|host| + 40) * count), Fresh(data), host, count);
      Finish(c).Written()
  }

  /** The buffer never overflows, and its contents are the URIs of all records and a final zero. */
  lemma ListTextIs(host: bytes, data: bytes, count: nat)
    requires |data| < SIZE_LIMIT && (|host| + 40) * count < SIZE_LIMIT && count > 0 && |data| >= 12 * count
    ensures ListText(host, data, count) == UriLines(host, Records(data, 0, count)) + [0]
    ensures var (c, r) := PutUris(Blank((|host| + 40) * count), Fresh(data), host, count);
            Finish(c).fails == 0 && r.fails == 0
  {
    hide PutUris, UriLines, Records, Put, UriText;
    var size := (|host| + 40) * count;
    RoomForLines(|host|, count);
    PrintedLines(Blank(size), Fresh(data), host, count);
    var (c, r) := PutUris(Blank(size), Fresh(data), host, count);
    assert Blank(size).Written() == [];
    var lines := UriLines(host, Records(data, 0, count));
    assert c.Written() == lines;
    assert c.pos == |lines|;
    assert ListText(host, data, count) == Put(c, [0]).Written();
  }

  lemma RoomForLines(h: nat, n: nat)
    requires n > 0
    ensures 0 < (h + 35) * n <= (h + 40) * n - 5
  {
    assert (h + 40) * n == (h + 35) * n + 5 * n;
    LineLength(h, n);
    assert (h + 35) * (n - 1) >= 0;
  }

  /** The part of the enumeration call behind the decoder. */
  method EnumerationText(host: bytes, data: bytes, count: nat) returns (text: bytes)
    requires |data| < SIZE_LIMIT && (|host| + 40) * count < SIZE_LIMIT
    ensures text == ListText(host, data, count)
  {
    hide PutUris;
    if count == 0 {
      return [];
    }
    var res := new MBuf.Zeroed((|host| + 40) * count);
    var ok := XiNetDevUris(res, host, data, count);
    text := res.data[..res.pos];
  }

  // ---------------------------------------------------------------- reading the text

  /** The strings of a zero-separated list, up to the first empty one. */
  function Split(t: bytes): seq<bytes>
    decreases |t|
  {
    match IndexOf(t, 0)
    case None => []
    case Some(i) => if i == 0 then [] else [t[..i]] + Split(t[i + 1..])
  }

  lemma UriHasNoZero(host: bytes, d: DevId)
    requires GoodHost(host)
    ensures forall i :: 0 <= i < |UriText(host, d)| ==> UriText(host, d)[i] != 0
  {
    hide IdText;
    var t := IdText(d);
    assert forall i :: 0 <= i < |t| ==> IsHex(t[i]);
  }

  lemma FirstZero(s: bytes, rest: bytes)
    requires forall i :: 0 <= i < |s| ==> s[i] != 0
    ensures IndexOf(s + [0] + rest, 0) == Some(|s|)
  {
    var t := s + [0] + rest;
    assert t[|s|] == 0;
    assert forall i :: 0 <= i < |s| ==> t[i] == s[i];
  }

  lemma {:induction false} SplitLines(host: bytes, ds: seq<DevId>)
    requires GoodHost(host)
    ensures var ss := Split(UriLines(host, ds) + [0]);
            |ss| == |ds| && forall i :: 0 <= i < |ds| ==> ss[i] == UriText(host, ds[i])
    decreases |ds|
  {
    hide UriText, GoodHost, IndexOf;
    if ds == [] {
      FirstZero([], []);
      assert [] + [0] + [] == UriLines(host, ds) + [0];
    } else {
      var s, rest := UriText(host, ds[0]), UriLines(host, ds[1..]) + [0];
      var t := UriLines(host, ds) + [0];
      UriHasNoZero(host, ds[0]);
      assert t == s + [0] + rest;
      UriTextLength(host, ds[0]);
      SplitFirst(s, rest);
      SplitLines(host, ds[1..]);
    }
  }

  lemma SplitFirst(s: bytes, rest: bytes)
    requires s != [] && forall i :: 0 <= i < |s| ==> s[i] != 0
    ensures Split(s + [0] + rest) == [s] + Split(rest)
  {
    hide IndexOf;
    FirstZero(s, rest);
    var t := s + [0] + rest;
    assert t[..|s|] == s && t[|s| + 1..] == rest;
  }

  lemma UriTextLength(host: bytes, d: DevId)
    ensures |UriText(host, d)| == |host| + 34
  {
  }

  // ---------------------------------------------------------------- end to end

  /** What the application gets for a decoded reply: the parsed URIs. */
  function UrisFrom(host: bytes, r: Reply): Option<seq<UriResult>> {
    match r
    case Rejected(_) => None
    case Understood(_, count, data, _) =>
      if (|host| + 40) * count >= SIZE_LIMIT || |data| >= SIZE_LIMIT then None
      else
        var lines := Split(ListText(host, data, count));
        Some(seq(|lines|, i requires 0 <= i < |lines| => ParseUri(lines[i])))
  }

  /** What it gets for the bytes of a version 3 reply. */
  function Enumerated(host: bytes, reply: bytes): Option<seq<UriResult>>
    requires |reply| < SIZE_LIMIT
  {
    UrisFrom(host, DecodeReply(reply))
  }

  /** And for those of a version 1 reply. */
  function Enumerated1(host: bytes, reply: bytes): Option<seq<UriResult>>
    requires |reply| < SIZE_LIMIT
  {
    UrisFrom(host, DecodeReply1(reply))
  }

  /** What is left of a device id: `reserve` is cut to 16 bits by the parser. */
  function Short(d: DevId): DevId {
    d.(reserve := d.reserve % 0x1_0000)
  }

  /** What the application gets for a list of ids. */
  function UrisOf(host: bytes, devs: seq<DevId>): seq<UriResult> {
    seq(|devs|, i requires 0 <= i < |devs| => GoodUri(host, Short(devs[i])))
  }

  /** Whatever bytes the client accepts as an enumeration: the application gets as many URIs as were
      announced, and they parse to the records that the decoder handed on. */
  lemma AcceptedEnumeration(host: bytes, reply: bytes)
    requires GoodHost(host) && |reply| < SIZE_LIMIT
    ensures var r := DecodeReply(reply);
            r.Understood? && r.pckt == PKT3_ENUM_RESP && (|host| + 40) * r.result < SIZE_LIMIT ==>
              |r.data| == 12 * r.result && Enumerated(host, reply) == Some(UrisOf(host, Records(r.data, 0, r.result)))
  {
    hide DecodeReply, ListText, ParseUri, GoodHost, Records, UrisOf, Split;
    var r := DecodeReply(reply);
    if r.Understood? && r.pckt == PKT3_ENUM_RESP && (|host| + 40) * r.result < SIZE_LIMIT {
      assert (|host| + 40) * r.result == |host| * r.result + 40 * r.result;
      AcceptedData(reply);
      ParsedText(host, r.data, r.result);
    }
  }

  /**
   Likewise in version 1. If the reply is as long as the records it announces, which is what acceptance
   means below 128 records, the URIs name exactly the serials found in it, in their order.
  */
  lemma AcceptedEnumeration1(host: bytes, reply: bytes)
    requires GoodHost(host) && |reply| < SIZE_LIMIT
    ensures var r := DecodeReply1(reply);
            r.Understood? && r.pckt == PKT1_ENUM_RESP && (|host| + 40) * r.result < SIZE_LIMIT ==>
              && |r.data| == 12 * r.result
              && Enumerated1(host, reply) == Some(UrisOf(host, Records(r.data, 0, r.result)))
              && (r.result < 128 ==> 16 + 180 * r.result <= |reply|)
              && (16 + 180 * r.result <= |reply| ==>
                   Enumerated1(host, reply) == Some(SerialUris(host, Serials(reply, 16, r.result))))
  {
    hide DecodeReply1, ListText, ParseUri, GoodHost, Records, UrisOf, Split, SerialUris, Serials;
    var r := DecodeReply1(reply);
    if r.Understood? && r.pckt == PKT1_ENUM_RESP && (|host| + 40) * r.result < SIZE_LIMIT {
      assert (|host| + 40) * r.result == |host| * r.result + 40 * r.result;
      AcceptedData1(reply);
      ParsedText(host, r.data, r.result);
      if 16 + 180 * r.result <= |reply| {
        var ds := Serials(reply, 16, r.result);
        assert ListBytes(ds)[0..0 + 12 * |ds|] == ListBytes(ds);
        RecordsOf(ListBytes(ds), 0, ds);
        SerialsAreShort(host, reply, 16, r.result);
      }
    }
  }

  /** The URIs of ids that are plain serials, which the parser cuts nothing from. */
  function SerialUris(host: bytes, ds: seq<DevId>): seq<UriResult> {
    seq(|ds|, i requires 0 <= i < |ds| => GoodUri(host, ds[i]))
  }

  lemma {:induction false} SerialsAreShort(host: bytes, b: bytes, i: nat, k: nat)
    requires i + 180 * k <= |b|
    ensures UrisOf(host, Serials(b, i, k)) == SerialUris(host, Serials(b, i, k))
    decreases k
  {
    hide LeValue;
    if k > 0 {
      SerialsAreShort(host, b, i + 180, k - 1);
      var ds, rest := Serials(b, i, k), Serials(b, i + 180, k - 1);
      assert ds[1..] == rest;
      forall j | 0 <= j < |ds| ensures UrisOf(host, ds)[j] == SerialUris(host, ds)[j] {
        if j > 0 {
          assert UrisOf(host, rest)[j - 1] == SerialUris(host, rest)[j - 1];
        }
      }
    }
  }

  lemma AcceptedData1(reply: bytes)
    requires |reply| < SIZE_LIMIT && DecodeReply1(reply).Understood? && DecodeReply1(reply).pckt == PKT1_ENUM_RESP
    ensures var r := DecodeReply1(reply);
            && |r.data| == 12 * LoopCount(r.result)
            && (LoopCount(r.result) < 128 ==> 16 + 180 * LoopCount(r.result) <= |reply|)
            && (16 + 180 * LoopCount(r.result) <= |reply| ==> r.data == ListBytes(Serials(reply, 16, LoopCount(r.result))))
  {
    hide BeValue, LoopCount, ReadRecords1, ListBytes, Serials;
    Enum1AcceptedIff(reply);
  }

  lemma ParsedText(host: bytes, data: bytes, count: nat)
    requires GoodHost(host) && |data| < SIZE_LIMIT && (|host| + 40) * count < SIZE_LIMIT && |data| >= 12 * count
    ensures var lines := Split(ListText(host, data, count));
            seq(|lines|, i requires 0 <= i < |lines| => ParseUri(lines[i])) == UrisOf(host, Records(data, 0, count))
  {
    hide ListText, UriText, ParseUri, UriLines, GoodHost, Records, UrisOf, Split;
    if count == 0 {
      EmptyText(host, data);
    } else {
      ListTextIs(host, data, count);
      SplitLines(host, Records(data, 0, count));
    }
    ParsedLines(host, Records(data, 0, count), Split(ListText(host, data, count)));
  }

  lemma AcceptedData(reply: bytes)
    requires |reply| < SIZE_LIMIT && DecodeReply(reply).Understood? && DecodeReply(reply).pckt == PKT3_ENUM_RESP
    ensures |DecodeReply(reply).data| == 12 * LoopCount(DecodeReply(reply).result)
  {
  }

  /** Every device list arrives complete and in order, with each `reserve` cut to 16 bits. */
  lemma EnumerationEndToEnd(host: bytes, devs: seq<DevId>)
    requires GoodHost(host) && (|host| + 40) * |devs| < PAYLOAD_LIMIT
    ensures 12 * |devs| < PAYLOAD_LIMIT
    ensures Enumerated(host, EnumResponse(devs)) == Some(UrisOf(host, devs))
  {
    hide DecodeReply, EnumResponse, ListBytes, GoodHost, Enumerated, UrisOf;
    assert (|host| + 40) * |devs| == |host| * |devs| + 40 * |devs|;
    EnumRoundTrip(devs);
    ResponseLength(devs);
    AcceptedEnumeration(host, EnumResponse(devs));
    assert ListBytes(devs)[0..0 + 12 * |devs|] == ListBytes(devs);
    RecordsOf(ListBytes(devs), 0, devs);
  }

  lemma ParsedLines(host: bytes, devs: seq<DevId>, lines: seq<bytes>)
    requires GoodHost(host) && |lines| == |devs| && forall i :: 0 <= i < |devs| ==> lines[i] == UriText(host, devs[i])
    ensures seq(|lines|, i requires 0 <= i < |lines| => ParseUri(lines[i])) == UrisOf(host, devs)
  {
    hide UriText, ParseUri, GoodHost;
    forall i | 0 <= i < |devs| ensures ParseUri(lines[i]) == GoodUri(host, Short(devs[i])) {
      UriParses(host, devs[i]);
    }
  }

  lemma EmptyText(host: bytes, data: bytes)
    requires |data| < SIZE_LIMIT
    ensures (|host| + 40) * 0 < SIZE_LIMIT && Split(ListText(host, data, 0)) == [] && Records(data, 0, 0) == []
  {
  }

  lemma ResponseLength(devs: seq<DevId>)
    requires 12 * |devs| < PAYLOAD_LIMIT
    ensures |EnumResponse(devs)| == 40 + 12 * |devs|
  {
  }

  /** So the application gets the server's list back exactly when every `reserve` fits in 16 bits. */
  lemma EnumerationIsExactIff(host: bytes, devs: seq<DevId>)
    requires GoodHost(host) && (|host| + 40) * |devs| < PAYLOAD_LIMIT
    ensures 12 * |devs| < PAYLOAD_LIMIT
    ensures Enumerated(host, EnumResponse(devs)) == Some(seq(|devs|, i requires 0 <= i < |devs| => GoodUri(host, devs[i])))
       <==> forall i :: 0 <= i < |devs| ==> devs[i].reserve < 0x1_0000
  {
    hide Enumerated, EnumResponse, GoodHost;
    EnumerationEndToEnd(host, devs);
    var got := UrisOf(host, devs);
    var sent := seq(|devs|, i requires 0 <= i < |devs| => GoodUri(host, devs[i]));
    if got == sent {
      forall i | 0 <= i < |devs| ensures devs[i].reserve < 0x1_0000 {
        assert got[i] == sent[i];
      }
    }
    if forall i :: 0 <= i < |devs| ==> devs[i].reserve < 0x1_0000 {
      assert got == sent;
    }
  }
}
