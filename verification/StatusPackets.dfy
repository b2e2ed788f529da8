/**
 Status packets (answers to open and close requests, errors, versions): what the decoders of the three
 protocol versions accept, compared with the packets' schemas. A decoder looks at the type, the
 length and the last word only; and because a failed skip is not checked, a packet that is eight
 bytes too short passes as well.
*/
module StatusPackets {
  import opened Words
  import opened Bytes
  import opened MBufs
  import opened DevIds
  import opened Protocol3s
  import opened Protocol12s
  import opened Schemas
  import opened PacketSchemas
  import opened Negotiations

  predicate IsStatus(v: u32, pckt: u32)
    requires Supported(v)
  {
    pckt in {PKT_OPEN_RESP, PKT_CLOSE_RESP} || (v == 3 && pckt in {PKT3_VER_RESP, PKT3_ERROR_RESP})
  }

  function FullLength(v: u32): nat
    requires Supported(v)
  {
    if v == 3 then 36 else 28
  }

  function SchemasOf(v: u32): Table
    requires Supported(v)
  {
    if v == 1 then SCHEMAS1 else if v == 2 then SCHEMAS2 else SCHEMAS3
  }

  /** Exactly which status packets are accepted: those of full length, and those eight bytes shorter;
      their value is the last word. */
  lemma StatusAcceptedIff(v: u32, b: Packet)
    requires Supported(v) && IsStatus(v, TypeOf(b))
    ensures DecodeIn(v, b).Understood? <==> |b| == FullLength(v) || |b| == FullLength(v) - 8
    ensures DecodeIn(v, b).Understood? ==>
      |b| >= 4 && DecodeIn(v, b).pckt == TypeOf(b) && DecodeIn(v, b).result == U32At(b, |b| - 4) && DecodeIn(v, b).data == []
  {
    hide U32At, DecodeEnum, DecodeEnum1;
  }

  /** The words that the schema of a status packet fixes. A device id of 12 bytes is not compared. */
  predicate WordsFit(v: u32, b: bytes, dev: DevId)
    requires Supported(v) && |b| == FullLength(v)
  {
    && U32At(b, 0) == v && U32At(b, 8) == 0
    && (if v != 3 then
          U32At(b, 12) == dev.id && U32At(b, 16) == 0 && U32At(b, 20) == 0 && U32At(b, 24) in {0, 1}
        else
          U32At(b, 24) == 0 && U32At(b, 28) == 0
          && (TypeOf(b) == PKT3_VER_RESP ==> U32At(b, 12) == 0 && U32At(b, 16) == 0 && U32At(b, 20) == 0)
          && (TypeOf(b) in {PKT_OPEN_RESP, PKT_CLOSE_RESP} ==> U32At(b, 32) in {0, 1}))
  }

  /** Exactly which accepted status packets match the schema of their type: those of full length whose
      version, reserved words, serial and value are right. */
  lemma AcceptedStatusFitsIff(v: u32, b: Packet, dev: DevId)
    requires Supported(v) && IsStatus(v, TypeOf(b)) && DecodeIn(v, b).Understood?
    ensures FitsTable(SchemasOf(v), TypeOf(b), b, Pick(v, TypeOf(b), dev)) <==> |b| == FullLength(v) && WordsFit(v, b, dev)
  {
    hide DecodeIn, Matches, Conforms, U32At, WordsFit, Lookup, SchemasOf, StatusSchema, IsStatus, TypeOf;
    StatusAcceptedIff(v, b);
    var a, schema := Pick(v, TypeOf(b), dev), StatusSchema(v, TypeOf(b));
    SchemaFound(v, TypeOf(b));
    ReadsOf(schema);
    MatchIffConforms(schema, b, a);
    if v == 3 {
      LongStatusConforms(b, dev);
    } else {
      ShortStatusConforms(v, b, dev);
    }
  }

  function StatusSchema(v: u32, pckt: u32): (r: string)
    ensures |r| <= 20
  {
    if v != 3 then "v_p_0_d_0_0_b"
    else if pckt in {PKT_OPEN_RESP, PKT_CLOSE_RESP} then "v_p_0_I_0_0_b"
    else if pckt == PKT3_VER_RESP then "v_p_0_0_0_0_0_0_u"
    else "v_p_0_I_0_0_u"
  }

  lemma SchemaFound(v: u32, pckt: u32)
    requires Supported(v) && IsStatus(v, pckt)
    ensures Lookup(SchemasOf(v), pckt) == Some(StatusSchema(v, pckt))
  {
    hide Lookup;
    if v == 3 {
      LookupIs(SCHEMAS3, if pckt == PKT_OPEN_RESP then 5 else if pckt == PKT_CLOSE_RESP then 7 else if pckt == PKT3_VER_RESP then 1 else 10, pckt);
    } else if v == 1 {
      LookupIs(SCHEMAS1, if pckt == PKT_OPEN_RESP then 2 else 4, pckt);
    } else {
      LookupIs(SCHEMAS2, if pckt == PKT_OPEN_RESP then 3 else 5, pckt);
    }
  }

  lemma {:induction false} ReadsOf(schema: string)
    ensures Reads(schema) <= 4 * |schema|
  {
    if schema != [] {
      ReadsOf(schema[1..]);
    }
  }

  lemma ShortStatusConforms(v: u32, b: bytes, dev: DevId)
    requires v in {1, 2} && |b| in {20, 28} && IsStatus(v, TypeOf(b))
    ensures Conforms(StatusSchema(v, TypeOf(b)), b, 0, Pick(v, TypeOf(b), dev)) <==> |b| == 28 && WordsFit(v, b, dev)
  {
    hide U32At, Conforms;
    var a := Pick(v, TypeOf(b), dev);
    var s0: string;
    if |b| == 28 {
      EndConforms(b, 24, a);
      s0 := Word('0', "_b", b, 20, a);
    } else {
      s0 := "0_b";
      assert s0 == ['0'] + "_b";
      ConformsAppend1('0', "_b", b, 20, a);
      ConformsAppend1('_', s0, b, 20, a);
    }
    var s1 := Word('0', ['_'] + s0, b, 16, a);
    var s2 := Word('d', ['_'] + s1, b, 12, a);
    FrontConforms(v, b, dev, s2);
    assert "v_p_0_" + s2 == StatusSchema(v, TypeOf(b));
  }

  /** The fields that all packets begin with. */
  lemma FrontConforms(v: u32, b: bytes, dev: DevId, rest: string)
    requires Supported(v) && |b| >= 12
    ensures Conforms("v_p_0_" + rest, b, 0, Pick(v, TypeOf(b), dev)) <==>
      U32At(b, 0) == v && U32At(b, 8) == 0 && Conforms(rest, b, 12, Pick(v, TypeOf(b), dev))
  {
    hide U32At, Conforms;
    var a := Pick(v, TypeOf(b), dev);
    ConformsAppend1('_', rest, b, 12, a);
    var s3 := Word('0', ['_'] + rest, b, 8, a);
    var s4 := Word('p', ['_'] + s3, b, 4, a);
    var s5 := Word('v', ['_'] + s4, b, 0, a);
    assert s5 == "v_p_0_" + rest;
  }

  /** The two reserved words and the value at the end of a version 3 packet. */
  lemma EndsWith(b: bytes, a: Args, end: string) returns (rest: string)
    requires |b| in {28, 36} && end in {"_b", "_u"}
    ensures rest == "0_0" + end
    ensures Conforms(rest, b, 24, a) <==>
      |b| == 36 && U32At(b, 24) == 0 && U32At(b, 28) == 0 && (end == "_b" ==> U32At(b, 32) in {0, 1})
    ensures Conforms(['_'] + rest, b, 24, a) <==> Conforms(rest, b, 24, a)
  {
    hide U32At, Conforms;
    var s0 := ['0'] + end;
    if |b| == 36 {
      EndConforms(b, 32, a);
    }
    ConformsAppend1('0', end, b, 28, a);
    ConformsAppend1('_', s0, b, 28, a);
    rest := Word('0', ['_'] + s0, b, 24, a);
    assert rest == "0_0" + end;
  }

  lemma LongStatusConforms(b: bytes, dev: DevId)
    requires |b| in {28, 36} && IsStatus(3, TypeOf(b))
    ensures Conforms(StatusSchema(3, TypeOf(b)), b, 0, Pick(3, TypeOf(b), dev)) <==> |b| == 36 && WordsFit(3, b, dev)
  {
    hide U32At, Conforms;
    var a, pckt := Pick(3, TypeOf(b), dev), TypeOf(b);
    var end := if pckt in {PKT_OPEN_RESP, PKT_CLOSE_RESP} then "_b" else "_u";
    var s1 := EndsWith(b, a, end);
    if pckt == PKT3_VER_RESP {
      var z2 := Word('0', ['_'] + s1, b, 20, a);
      var z1 := Word('0', ['_'] + z2, b, 16, a);
      var z0 := Word('0', ['_'] + z1, b, 12, a);
      FrontConforms(3, b, dev, z0);
      assert "v_p_0_" + z0 == StatusSchema(3, pckt);
    } else {
      var s2 := Word('I', ['_'] + s1, b, 12, a);
      FrontConforms(3, b, dev, s2);
      assert "v_p_0_" + s2 == StatusSchema(3, pckt);
    }
  }

  /** A positive answer to an open request without its last two words but with the value 1 in front of them. */
  function CutAnswer(v: u32, dev: DevId): bytes
    requires Supported(v)
  {
    Be32(v) + Be32(PKT_OPEN_RESP) + Be32(0) + (if v == 3 then IdBytes(dev) else Be32(dev.id)) + Be32(1)
  }

  /** The witness, in every version: it is taken for a positive answer, though it fits no schema. */
  lemma CutAnswerAccepted(v: u32, dev: DevId)
    requires Supported(v)
    ensures var b := CutAnswer(v, dev);
            |b| == |PositiveAnswer(v, dev)| - 8 && |b| < SIZE_LIMIT && Accepting(v, b)
            && !FitsTable(SchemasOf(v), TypeOf(b), b, Pick(v, TypeOf(b), dev))
  {
    hide U32At, IdBytes, Be32, FitsTable, DecodeIn;
    var b := CutAnswer(v, dev);
    assert b[..4] == Be32(v) && b[4..8] == Be32(PKT_OPEN_RESP) && b[|b| - 4..|b| - 4 + 4] == Be32(1);
    assert b[3] == b[..4][3];
    LastByte(v);
    U32AtIs(b, 4, PKT_OPEN_RESP);
    U32AtIs(b, |b| - 4, 1);
    StatusAcceptedIff(v, b);
    AcceptedStatusFitsIff(v, b, dev);
  }
}
