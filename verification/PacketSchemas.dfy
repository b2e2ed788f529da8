/** The schemas of the packets, and the fact that the packets built by the protocols match them. */
module PacketSchemas {
  import opened Words
  import opened Bytes
  import opened MBufs
  import opened DevIds
  import opened Protocol3s
  import Protocol3Laws
  import opened Protocol12s
  import opened Schemas

  type Table = seq<(u32, string)>

  const SCHEMAS1: Table := [
    (PKT1_RAW, "v_p_0_d_0_0_x"), (PKT_OPEN_REQ, "v_p_0_d_0_0"), (PKT_OPEN_RESP, "v_p_0_d_0_0_b"),
    (PKT_CLOSE_REQ, "v_p_0_d_0_0"), (PKT_CLOSE_RESP, "v_p_0_d_0_0_b"), (PKT1_ENUM_REQ, "v_p_0_0_0_0_0"),
    (PKT1_ENUM_RESP, "v_p_0_u_x"), (PKT1_ERROR_NTF, "v_p_0_d_0_0")]

  const SCHEMAS2: Table := [
    (PKT2_CMD_REQ, "v_p_0_d_0_0_x"), (PKT2_CMD_RESP, "v_p_0_d_0_0_x"), (PKT_OPEN_REQ, "v_p_0_d_0_0"),
    (PKT_OPEN_RESP, "v_p_0_d_0_0_b"), (PKT_CLOSE_REQ, "v_p_0_d_0_0"), (PKT_CLOSE_RESP, "v_p_0_d_0_0_b")]

  const SCHEMAS3: Table := [
    (PKT3_VER_REQ, "v_p_0_0_0_0_0_0"), (PKT3_VER_RESP, "v_p_0_0_0_0_0_0_u"), (PKT3_CMD_REQ, "v_p_0_I_0_0_l_u"),
    (PKT3_CMD_RESP, "v_p_0_I_0_0_l"), (PKT3_OPEN_REQ, "v_p_0_I_0_0"), (PKT3_OPEN_RESP, "v_p_0_I_0_0_b"),
    (PKT3_CLOSE_REQ, "v_p_0_I_0_0"), (PKT3_CLOSE_RESP, "v_p_0_I_0_0_b"), (PKT3_ENUM_REQ, "v_p_0_0_0_0_0_0"),
    (PKT3_ENUM_RESP, "v_p_0_0_0_0_0_0_x"), (PKT3_ERROR_RESP, "v_p_0_I_0_0_u")]

  /** The first entry of a packet type. */
  function Lookup(table: Table, pckt: u32): Option<string> {
    if table == [] then None
    else if table[0].0 == pckt then Some(table[0].1)
    else Lookup(table[1..], pckt)
  }

  /** The search loop; running into the terminating entry is `None`. */
  method GetSchema(table: Table, pckt: u32) returns (r: Option<string>)
    ensures r == Lookup(table, pckt)
  {
    var i := 0;
    while i < |table|
      invariant i <= |table| && Lookup(table[i..], pckt) == Lookup(table, pckt)
    {
      assert table[i..][0] == table[i] && table[i..][1..] == table[i + 1..];
      if table[i].0 == pckt {
        return Some(table[i].1);
      }
      i := i + 1;
    }
    return None;
  }

  /** `b` matches the schema of its packet type. */
  predicate FitsTable(table: Table, pckt: u32, b: bytes, a: Args)
    requires |b| < SIZE_LIMIT
  {
    Lookup(table, pckt).Some? && Matches(Lookup(table, pckt).value, Fresh(b), 0, a)
  }

  // ---------------------------------------------------------------- heads

  /** The values that a packet's fields are compared with. */
  function Pick(version: u32, pckt: u32, dev: DevId): Args {
    Args(pckt, version, dev, 0, 0)
  }

  lemma ConformsAppend1(ch: char, rest: string, b: bytes, i: nat, a: Args)
    requires i <= |b|
    ensures Conforms([ch] + rest, b, i, a) <==>
      if ch == '_' || ch == 'x' then Conforms(rest, b, i, a)
      else if ch == 'I' then i + 12 <= |b| && Conforms(rest, b, i + 12, a)
      else if ch == 'l' then
        i + 4 <= |b| && 0 <= i + 4 + ToInt32(U32At(b, i)) <= |b| && Conforms(rest, b, i + 4 + ToInt32(U32At(b, i)), a)
      else
        i + 4 <= |b| && Conforms(rest, b, i + 4, a)
        && match ch
           case 'v' => U32At(b, i) == a.proto
           case '0' => U32At(b, i) == 0
           case 'p' => U32At(b, i) == a.pktType
           case 'd' => U32At(b, i) == a.dev.id
           case 'b' => U32At(b, i) in {0, 1}
           case 'u' => true
           case _ => false
  {
    hide U32At;
    assert ([ch] + rest)[1..] == rest;
  }

  /** The words of a packet with a 24-byte head. */
  lemma ShortHeadWords(version: u32, pckt: u32, serial: u32, tail: bytes)
    ensures var b := ShortHead(version, pckt, serial) + tail;
            U32At(b, 0) == version && U32At(b, 4) == pckt && U32At(b, 8) == 0 && U32At(b, 12) == serial
            && U32At(b, 16) == 0 && U32At(b, 20) == 0
  {
    hide Be32, U32At;
    var b := ShortHead(version, pckt, serial) + tail;
    assert b[0..4] == Be32(version) && b[4..8] == Be32(pckt) && b[8..12] == Be32(0) && b[12..16] == Be32(serial)
        && b[16..20] == Be32(0) && b[20..24] == Be32(0);
    U32AtIs(b, 0, version);
    U32AtIs(b, 4, pckt);
    U32AtIs(b, 8, 0);
    U32AtIs(b, 12, serial);
    U32AtIs(b, 16, 0);
    U32AtIs(b, 20, 0);
  }

  lemma ShortHeadConforms(version: u32, pckt: u32, dev: DevId, tail: bytes, rest: string)
    ensures var b := ShortHead(version, pckt, dev.id) + tail;
            Conforms("v_p_0_d_0_0" + rest, b, 0, Pick(version, pckt, dev))
            <==> Conforms(rest, b, 24, Pick(version, pckt, dev))
  {
    hide U32At, ShortHead, Conforms;
    var b, a := ShortHead(version, pckt, dev.id) + tail, Pick(version, pckt, dev);
    ShortHeadWords(version, pckt, dev.id, tail);
    var s0 := Word('0', rest, b, 20, a);
    var s1 := Word('0', ['_'] + s0, b, 16, a);
    var s2 := Word('d', ['_'] + s1, b, 12, a);
    var s3 := Word('0', ['_'] + s2, b, 8, a);
    var s4 := Word('p', ['_'] + s3, b, 4, a);
    var s5 := Word('v', ['_'] + s4, b, 0, a);
    assert s5 == "v_p_0_d_0_0" + rest;
  }

  /** One more field in front, with or without a separator behind it. */
  lemma Word(ch: char, rest: string, b: bytes, i: nat, a: Args) returns (schema: string)
    requires ch != 'x' && ch != 'l' && ch != '_'
    requires i + FieldLength(ch) <= |b|
    ensures schema == [ch] + rest
    ensures Conforms(schema, b, i, a) <==>
      (Conforms(rest, b, i + FieldLength(ch), a)
       && match ch
          case 'v' => U32At(b, i) == a.proto
          case '0' => U32At(b, i) == 0
          case 'p' => U32At(b, i) == a.pktType
          case 'd' => U32At(b, i) == a.dev.id
          case 'b' => U32At(b, i) in {0, 1}
          case 'u' => true
          case 'I' => true
          case _ => false)
    ensures Conforms(['_'] + schema, b, i, a) <==> Conforms(schema, b, i, a)
  {
    hide U32At, Conforms;
    schema := [ch] + rest;
    ConformsAppend1('_', schema, b, i, a);
    ConformsAppend1(ch, rest, b, i, a);
  }

  lemma HeadWords(pckt: u32, dev: DevId, tail: bytes)
    ensures var b := Head(pckt, 0, dev) + tail;
            U32At(b, 0) == 3 && U32At(b, 4) == pckt && U32At(b, 8) == 0 && U32At(b, 24) == 0 && U32At(b, 28) == 0
    ensures var b := Head(pckt, 0, NO_ID) + tail; U32At(b, 12) == 0 && U32At(b, 16) == 0 && U32At(b, 20) == 0
  {
    hide Be32, U32At, IdBytes;
    var b := Head(pckt, 0, dev) + tail;
    assert b[0..4] == Be32(3) && b[4..8] == Be32(pckt) && b[8..12] == Be32(0);
    assert b[24..28] == Be32(0) && b[28..32] == Be32(0);
    U32AtIs(b, 0, 3);
    U32AtIs(b, 4, pckt);
    U32AtIs(b, 8, 0);
    U32AtIs(b, 24, 0);
    U32AtIs(b, 28, 0);
    var z := Head(pckt, 0, NO_ID) + tail;
    Protocol3.ZeroId();
    assert z[12..16] == Be32(0) && z[16..20] == Be32(0) && z[20..24] == Be32(0);
    U32AtIs(z, 12, 0);
    U32AtIs(z, 16, 0);
    U32AtIs(z, 20, 0);
  }

  lemma IdHeadConforms(pckt: u32, dev: DevId, tail: bytes, rest: string)
    ensures var b := Head(pckt, 0, dev) + tail;
            Conforms("v_p_0_I_0_0" + rest, b, 0, Pick(3, pckt, dev)) <==> Conforms(rest, b, 32, Pick(3, pckt, dev))
  {
    hide U32At, Head, Conforms;
    var b, a := Head(pckt, 0, dev) + tail, Pick(3, pckt, dev);
    HeadWords(pckt, dev, tail);
    var s0 := Word('0', rest, b, 28, a);
    var s1 := Word('0', ['_'] + s0, b, 24, a);
    var s2 := Word('I', ['_'] + s1, b, 12, a);
    var s3 := Word('0', ['_'] + s2, b, 8, a);
    var s4 := Word('p', ['_'] + s3, b, 4, a);
    var s5 := Word('v', ['_'] + s4, b, 0, a);
    assert s5 == "v_p_0_I_0_0" + rest;
  }

  lemma ZeroHeadConforms(pckt: u32, tail: bytes, rest: string)
    ensures var b := Head(pckt, 0, NO_ID) + tail;
            Conforms("v_p_0_0_0_0_0_0" + rest, b, 0, Pick(3, pckt, NO_ID)) <==> Conforms(rest, b, 32, Pick(3, pckt, NO_ID))
  {
    hide U32At, Head, Conforms;
    var b, a := Head(pckt, 0, NO_ID) + tail, Pick(3, pckt, NO_ID);
    HeadWords(pckt, NO_ID, tail);
    var s0 := Word('0', rest, b, 28, a);
    var s1 := Word('0', ['_'] + s0, b, 24, a);
    var s2 := Word('0', ['_'] + s1, b, 20, a);
    var s3 := Word('0', ['_'] + s2, b, 16, a);
    var s4 := Word('0', ['_'] + s3, b, 12, a);
    var s5 := Word('0', ['_'] + s4, b, 8, a);
    var s6 := Word('p', ['_'] + s5, b, 4, a);
    var s7 := Word('v', ['_'] + s6, b, 0, a);
    assert s7 == "v_p_0_0_0_0_0_0" + rest;
  }

  /** The end of a schema: nothing, any bytes, one more word, or a counted string. */
  lemma EndConforms(b: bytes, i: nat, a: Args)
    requires i <= |b|
    ensures Conforms("", b, i, a) && Conforms("_x", b, i, a)
    ensures Conforms("_u", b, i, a) <==> i + 4 <= |b|
    ensures Conforms("_b", b, i, a) <==> i + 4 <= |b| && U32At(b, i) in {0, 1}
    ensures Conforms("_l", b, i, a) <==> i + 4 <= |b| && 0 <= i + 4 + ToInt32(U32At(b, i)) <= |b|
    ensures Conforms("_l_u", b, i, a) <==>
      i + 4 <= |b| && 0 <= i + 4 + ToInt32(U32At(b, i)) && i + 8 + ToInt32(U32At(b, i)) <= |b|
  {
    hide U32At;
    assert "_x" == ['_'] + "x" && "x" == ['x'] + "" && "_u" == ['_'] + "u" && "u" == ['u'] + "";
    assert "_b" == ['_'] + "b" && "b" == ['b'] + "" && "_l" == ['_'] + "l" && "l" == ['l'] + "";
    assert "_l_u" == ['_'] + "l_u" && "l_u" == ['l'] + "_u";
    ConformsAppend1('_', "x", b, i, a);
    ConformsAppend1('x', "", b, i, a);
    OneWord(b, i, a);
    ConformsAppend1('_', "b", b, i, a);
    ConformsAppend1('b', "", b, i, a);
    ConformsAppend1('_', "l", b, i, a);
    ConformsAppend1('l', "", b, i, a);
    ConformsAppend1('_', "l_u", b, i, a);
    ConformsAppend1('l', "_u", b, i, a);
    if i + 4 <= |b| && 0 <= i + 4 + ToInt32(U32At(b, i)) <= |b| {
      OneWord(b, i + 4 + ToInt32(U32At(b, i)), a);
    }
  }

  lemma OneWord(b: bytes, i: nat, a: Args)
    requires i <= |b|
    ensures Conforms("_u", b, i, a) <==> i + 4 <= |b|
  {
    assert "_u" == ['_'] + "u" && "u" == ['u'] + "";
    ConformsAppend1('_', "u", b, i, a);
    ConformsAppend1('u', "", b, i, a);
  }

  lemma {:induction false} LookupIs(table: Table, k: nat, pckt: u32)
    requires k < |table| && table[k].0 == pckt && forall j :: 0 <= j < k ==> table[j].0 != pckt
    ensures Lookup(table, pckt) == Some(table[k].1)
  {
    if k > 0 {
      LookupIs(table[1..], k - 1, pckt);
    }
  }

  // ---------------------------------------------------------------- main results

  lemma Fits(table: Table, k: nat, schema: string, pckt: u32, b: bytes, a: Args)
    requires |b| < SIZE_LIMIT && k < |table| && table[k].0 == pckt && (forall j :: 0 <= j < k ==> table[j].0 != pckt)
    requires table[k].1 == schema && Conforms(schema, b, 0, a)
    ensures FitsTable(table, pckt, b, a)
  {
    LookupIs(table, k, pckt);
    MatchIff(table[k].1, b, a);
  }

  /** Every request the version 3 client builds matches the schema of its type. */
  lemma Requests3Fit(pckt: u32, dev: DevId, data: bytes, respLen: u32)
    requires pckt in {PKT3_OPEN_REQ, PKT3_CLOSE_REQ, PKT3_CMD_REQ, PKT3_ENUM_REQ, PKT3_VER_REQ}
    requires |data| < PAYLOAD_LIMIT
    ensures var addressed := pckt !in {PKT3_ENUM_REQ, PKT3_VER_REQ};
            var b := if pckt == PKT3_CMD_REQ then CmdRequest(dev, data, respLen) else ClientPacket(pckt, dev, 0, []);
            FitsTable(SCHEMAS3, pckt, b, Pick(3, pckt, if addressed then dev else NO_ID))
  {
    hide Head, U32At, Conforms, Matches, Lookup, Be32;
    if pckt == PKT3_CMD_REQ {
      var tail := Be32(|data|) + (data + Be32(respLen));
      var b := Head(pckt, 0, dev) + tail;
      assert CmdRequest(dev, data, respLen) == b;
      IdHeadConforms(pckt, dev, tail, "_l_u");
      Protocol3Laws.FieldAfter(Head(pckt, 0, dev), |data|, data + Be32(respLen));
      EndConforms(b, 32, Pick(3, pckt, dev));
      Fits(SCHEMAS3, 2, "v_p_0_I_0_0" + "_l_u", pckt, b, Pick(3, pckt, dev));
    } else if pckt == PKT3_OPEN_REQ || pckt == PKT3_CLOSE_REQ {
      IdHeadConforms(pckt, dev, [], "");
      EndConforms(Head(pckt, 0, dev) + [], 32, Pick(3, pckt, dev));
      var k := if pckt == PKT3_OPEN_REQ then 4 else 6;
      Fits(SCHEMAS3, k, "v_p_0_I_0_0" + "", pckt, ClientPacket(pckt, dev, 0, []), Pick(3, pckt, dev));
    } else {
      ZeroHeadConforms(pckt, [], "");
      EndConforms(Head(pckt, 0, NO_ID) + [], 32, Pick(3, pckt, NO_ID));
      var k := if pckt == PKT3_VER_REQ then 0 else 8;
      Fits(SCHEMAS3, k, "v_p_0_0_0_0_0_0" + "", pckt, ClientPacket(pckt, dev, 0, []), Pick(3, pckt, NO_ID));
    }
  }

  /** Every response the version 3 server builds matches the schema of its type; open and close
      responses carry 0 or 1. */
  lemma Responses3Fit(pckt: u32, val: u32, dev: DevId, data: bytes)
    requires pckt in {PKT3_OPEN_RESP, PKT3_CLOSE_RESP, PKT3_CMD_RESP, PKT3_ERROR_RESP, PKT3_ENUM_RESP, PKT3_VER_RESP}
    requires |data| < PAYLOAD_LIMIT && (pckt in {PKT3_ENUM_RESP, PKT3_VER_RESP} ==> dev == NO_ID)
    requires pckt in {PKT3_OPEN_RESP, PKT3_CLOSE_RESP} ==> val in {0, 1}
    ensures FitsTable(SCHEMAS3, pckt, ServerPacket(pckt, val, dev, data), Pick(3, pckt, dev))
  {
    hide Head, U32At, Conforms, Matches, Lookup, Be32;
    var b, a := ServerPacket(pckt, val, dev, data), Pick(3, pckt, dev);
    var tail := ServerPayload(pckt, val, data);
    EndConforms(b, 32, a);
    if pckt == PKT3_CMD_RESP {
      Protocol3Laws.FieldAfter(Head(pckt, 0, dev), |data|, data);
      IdHeadConforms(pckt, dev, tail, "_l");
      Fits(SCHEMAS3, 3, "v_p_0_I_0_0" + "_l", pckt, b, a);
    } else if pckt == PKT3_ENUM_RESP {
      ZeroHeadConforms(pckt, tail, "_x");
      Fits(SCHEMAS3, 9, "v_p_0_0_0_0_0_0" + "_x", pckt, b, a);
    } else if pckt == PKT3_VER_RESP {
      ZeroHeadConforms(pckt, tail, "_u");
      Fits(SCHEMAS3, 1, "v_p_0_0_0_0_0_0" + "_u", pckt, b, a);
    } else if pckt == PKT3_ERROR_RESP {
      IdHeadConforms(pckt, dev, tail, "_u");
      Fits(SCHEMAS3, 10, "v_p_0_I_0_0" + "_u", pckt, b, a);
    } else {
      Protocol3Laws.FieldAfter(Head(pckt, 0, dev), val, []);
      assert Be32(val) + [] == tail;
      IdHeadConforms(pckt, dev, tail, "_b");
      Fits(SCHEMAS3, if pckt == PKT3_OPEN_RESP then 5 else 7, "v_p_0_I_0_0" + "_b", pckt, b, a);
    }
  }

  /** The packets of the two older versions match their schemas as well. */
  lemma ShortPacketsFit(dev: DevId, val: u32, data: bytes)
    requires |data| < PAYLOAD_LIMIT && val in {0, 1}
    ensures forall pckt | pckt in {PKT_OPEN_REQ, PKT_CLOSE_REQ} ::
      && FitsTable(SCHEMAS1, pckt, ClientPacket1(pckt, dev.id, []), Pick(1, pckt, dev))
      && FitsTable(SCHEMAS2, pckt, ClientPacket2(pckt, dev.id, []), Pick(2, pckt, dev))
    ensures FitsTable(SCHEMAS1, PKT1_ENUM_REQ, ClientPacket1(PKT1_ENUM_REQ, 0, data), Pick(1, PKT1_ENUM_REQ, NO_ID))
    ensures FitsTable(SCHEMAS1, PKT1_RAW, ClientPacket1(PKT1_RAW, dev.id, data), Pick(1, PKT1_RAW, dev))
    ensures FitsTable(SCHEMAS2, PKT2_CMD_REQ, ClientPacket2(PKT2_CMD_REQ, dev.id, data), Pick(2, PKT2_CMD_REQ, dev))
    ensures forall pckt | pckt in {PKT_OPEN_RESP, PKT_CLOSE_RESP} ::
      FitsTable(SCHEMAS2, pckt, ServerPacket2(pckt, val, dev.id, []), Pick(2, pckt, dev))
    ensures FitsTable(SCHEMAS2, PKT2_CMD_RESP, ServerPacket2(PKT2_CMD_RESP, val, dev.id, data), Pick(2, PKT2_CMD_RESP, dev))
  {
    hide ShortHead, U32At, Conforms, Matches, Lookup, Be32;
    forall pckt | pckt in {PKT_OPEN_REQ, PKT_CLOSE_REQ}
      ensures FitsTable(SCHEMAS1, pckt, ClientPacket1(pckt, dev.id, []), Pick(1, pckt, dev))
      ensures FitsTable(SCHEMAS2, pckt, ClientPacket2(pckt, dev.id, []), Pick(2, pckt, dev))
    {
      ShortFits(SCHEMAS1, if pckt == PKT_OPEN_REQ then 1 else 3, 1, pckt, dev, [], "");
      ShortFits(SCHEMAS2, if pckt == PKT_OPEN_REQ then 2 else 4, 2, pckt, dev, [], "");
    }
    EnumRequest1Fits(data);
    ShortFits(SCHEMAS1, 0, 1, PKT1_RAW, dev, data, "_x");
    ShortFits(SCHEMAS2, 0, 2, PKT2_CMD_REQ, dev, data, "_x");
    ShortFits(SCHEMAS2, 1, 2, PKT2_CMD_RESP, dev, Be32(val) + data, "_x");
    forall pckt | pckt in {PKT_OPEN_RESP, PKT_CLOSE_RESP}
      ensures FitsTable(SCHEMAS2, pckt, ServerPacket2(pckt, val, dev.id, []), Pick(2, pckt, dev))
    {
      Protocol3Laws.FieldAfter(ShortHead(2, pckt, dev.id), val, []);
      ShortFits(SCHEMAS2, if pckt == PKT_OPEN_RESP then 3 else 5, 2, pckt, dev, Be32(val) + [], "_b");
    }
  }

  lemma EnumRequest1Fits(data: bytes)
    ensures FitsTable(SCHEMAS1, PKT1_ENUM_REQ, ClientPacket1(PKT1_ENUM_REQ, 0, data), Pick(1, PKT1_ENUM_REQ, NO_ID))
  {
    hide ShortHead, U32At, Conforms, Matches, Lookup, Be32;
    var b, a := ShortHead(1, PKT1_ENUM_REQ, 0) + Be32(0), Pick(1, PKT1_ENUM_REQ, NO_ID);
    ShortHeadWords(1, PKT1_ENUM_REQ, 0, Be32(0));
    assert b[24..28] == Be32(0);
    U32AtIs(b, 24, 0);
    EndConforms(b, 28, a);
    var s0 := Word('0', "", b, 24, a);
    var s1 := Word('0', ['_'] + s0, b, 20, a);
    var s2 := Word('0', ['_'] + s1, b, 16, a);
    var s3 := Word('0', ['_'] + s2, b, 12, a);
    var s4 := Word('0', ['_'] + s3, b, 8, a);
    var s5 := Word('p', ['_'] + s4, b, 4, a);
    var s6 := Word('v', ['_'] + s5, b, 0, a);
    assert s6 == "v_p_0_0_0_0_0";
    Fits(SCHEMAS1, 5, s6, PKT1_ENUM_REQ, b, a);
  }

  lemma ShortFits(table: Table, k: nat, version: u32, pckt: u32, dev: DevId, tail: bytes, rest: string)
    requires |tail| < SIZE_LIMIT - 24 && rest in {"", "_x", "_b"}
    requires k < |table| && table[k].0 == pckt && (forall j :: 0 <= j < k ==> table[j].0 != pckt)
    requires table[k].1 == "v_p_0_d_0_0" + rest
    requires rest == "_b" ==> |tail| == 4 && U32At(ShortHead(version, pckt, dev.id) + tail, 24) in {0, 1}
    ensures FitsTable(table, pckt, ShortHead(version, pckt, dev.id) + tail, Pick(version, pckt, dev))
  {
    hide ShortHead, U32At, Conforms, Matches, Lookup, Be32;
    ShortHeadConforms(version, pckt, dev, tail, rest);
    EndConforms(ShortHead(version, pckt, dev.id) + tail, 24, Pick(version, pckt, dev));
    Fits(table, k, "v_p_0_d_0_0" + rest, pckt, ShortHead(version, pckt, dev.id) + tail, Pick(version, pckt, dev));
  }

  // ---------------------------------------------------------------- generated packets

  lemma FieldFirst(ch: char, rest: string, a: Args)
    ensures Command([ch] + rest, a) == Field(ch, a) + Command(rest, a)
    ensures Command(['_'] + rest, a) == Command(rest, a)
  {
    assert ([ch] + rest)[1..] == rest;
    assert (['_'] + rest)[1..] == rest;
    assert Field('_', a) == [];
  }

  /** Puts a field and an underscore in front of a schema, and the field's bytes in front of the command. */
  lemma Before(ch: char, rest: string, a: Args) returns (s: string)
    ensures s == [ch] + (['_'] + rest) && Command(s, a) == Field(ch, a) + Command(rest, a)
  {
    s := [ch] + (['_'] + rest);
    FieldFirst(ch, ['_'] + rest, a);
    FieldFirst('_', rest, a);
  }

  /** The generator and the builders of the protocols make the same packets: the answers to open and close
      requests and the errors. */
  lemma GeneratedPackets(v: u32, dev: DevId, pckt: u32, val: u32)
    requires v in {1, 2} && pckt in {PKT_OPEN_RESP, PKT_CLOSE_RESP}
    ensures Command("v_p_0_I_0_0_b", Args(pckt, 3, dev, val, 0)) == ServerPacket(pckt, val, dev, [])
    ensures Command("v_p_0_d_0_0_b", Args(pckt, v, dev, val, 0)) == ShortHead(v, pckt, dev.id) + Be32(val)
    ensures Command("v_p_0_I_0_0_u", Args(PKT3_ERROR_RESP, 3, dev, 0, val)) == ServerPacket(PKT3_ERROR_RESP, val, dev, [])
  {
    hide *;
    assert "v_p_0_I_0_0_" + "b" == "v_p_0_I_0_0_b";
    GeneratedLong("b", Args(pckt, 3, dev, val, 0), val);
    GeneratedShort(Args(pckt, v, dev, val, 0));
    assert "v_p_0_I_0_0_" + "u" == "v_p_0_I_0_0_u";
    GeneratedLong("u", Args(PKT3_ERROR_RESP, 3, dev, 0, val), val);
  }

  lemma GeneratedLong(last: string, a: Args, val: u32)
    requires a.proto == 3 && a.pktType in {PKT_OPEN_RESP, PKT_CLOSE_RESP, PKT3_ERROR_RESP}
    requires (last == "b" && a.zeroOne == val) || (last == "u" && a.some == val)
    ensures Command("v_p_0_I_0_0_" + last, a) == ServerPacket(a.pktType, val, a.dev, [])
  {
    hide Be32, IdBytes, Command;
    LastField(a);
    HeadFirst('I', last, a);
    assert "v_p_0_" + ['I'] + "_0_0_" + last == "v_p_0_I_0_0_" + last;
    assert Field('I', a) == IdBytes(a.dev);
    assert Head(a.pktType, 0, a.dev) + Be32(val)
        == Be32(3) + (Be32(a.pktType) + (Be32(0) + (IdBytes(a.dev) + (Be32(0) + (Be32(0) + Be32(val))))));
  }

  lemma GeneratedShort(a: Args)
    ensures Command("v_p_0_d_0_0_b", a) == ShortHead(a.proto, a.pktType, a.dev.id) + Be32(a.zeroOne)
  {
    hide Be32, Command;
    LastField(a);
    HeadFirst('d', "b", a);
    assert "v_p_0_" + ['d'] + "_0_0_" + "b" == "v_p_0_d_0_0_b";
    assert Field('d', a) == Be32(a.dev.id);
    assert ShortHead(a.proto, a.pktType, a.dev.id) + Be32(a.zeroOne)
        == Be32(a.proto) + (Be32(a.pktType) + (Be32(0) + (Be32(a.dev.id) + (Be32(0) + (Be32(0) + Be32(a.zeroOne))))));
  }

  lemma LastField(a: Args)
    ensures Command("b", a) == Be32(a.zeroOne) && Command("u", a) == Be32(a.some)
  {
    hide Be32;
    FieldFirst('b', "", a);
    FieldFirst('u', "", a);
    assert ['b'] + "" == "b" && ['u'] + "" == "u";
  }

  lemma HeadFirst(id: char, last: string, a: Args)
    requires id in {'I', 'd'}
    ensures Command("v_p_0_" + [id] + "_0_0_" + last, a)
         == Be32(a.proto) + (Be32(a.pktType) + (Be32(0) + (Field(id, a) + (Be32(0) + (Be32(0) + Command(last, a))))))
  {
    hide Be32, IdBytes, Command;
    var s0 := Before('0', last, a);
    var s1 := Before('0', s0, a);
    var s2 := Before(id, s1, a);
    var s3 := Before('0', s2, a);
    var s4 := Before('p', s3, a);
    var s5 := Before('v', s4, a);
    assert s5 == "v_p_0_" + [id] + "_0_0_" + last;
  }
}
