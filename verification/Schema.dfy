/**
 Command schemas: strings such as `v_p_0_d_0_0_x` that say which field follows which, a generator
 for schemas of fixed length and a matcher for all of them.
*/
module Schemas {
  import opened Words
  import opened Bytes
  import opened MBufs
  import opened DevIds

  /** What the fields of a command are compared with or filled with. */
  datatype Args = Args(pktType: u32, proto: u32, dev: DevId, zeroOne: u32, some: u32)

  predicate IsPlainField(ch: char) {
    ch in {'v', '0', 'p', 'd', 'b', 'u', 'I'}
  }

  predicate IsPlain(schema: string) {
    forall i :: 0 <= i < |schema| ==> schema[i] == '_' || IsPlainField(schema[i])
  }

  /** The bytes of one field of a plain command. */
  function Field(ch: char, a: Args): bytes {
    match ch
    case 'v' => Be32(a.proto)
    case '0' => Be32(0)
    case 'p' => Be32(a.pktType)
    case 'd' => Be32(a.dev.id)
    case 'b' => Be32(a.zeroOne)
    case 'u' => Be32(a.some)
    case 'I' => IdBytes(a.dev)
    case _ => []
  }

  function FieldLength(ch: char): nat {
    if ch == 'I' then 12 else if IsPlainField(ch) then 4 else 0
  }

  /** The length of the fields of `schema`. */
  function Length(schema: string): nat {
    if schema == [] then 0 else FieldLength(schema[0]) + Length(schema[1..])
  }

  /** The command: its fields, one after another. */
  function Command(schema: string, a: Args): (r: bytes)
    ensures |r| == Length(schema)
  {
    if schema == [] then [] else Field(schema[0], a) + Command(schema[1..], a)
  }

  // ---------------------------------------------------------------- the source's three functions

  method GetPlainCommandLength(schema: string) returns (l: int)
    ensures l == if IsPlain(schema) then Length(schema) else -1
  {
    l := 0;
    for i := 0 to |schema|
      invariant IsPlain(schema[..i]) && l + Length(schema[i..]) == Length(schema)
    {
      var ch := schema[i];
      assert schema[i..][0] == ch && schema[i..][1..] == schema[i + 1..];
      if ch == '_' {
        continue;
      }
      if ch == 'v' || ch == '0' || ch == 'p' || ch == 'd' || ch == 'b' || ch == 'u' {
        l := l + 4;
      } else if ch == 'I' {
        l := l + 12;
      } else {
        assert !IsPlain(schema);
        return -1;
      }
    }
    assert schema[..|schema|] == schema;
  }

  method GenPlainCommand(schema: string, a: Args) returns (r: bytes)
    requires Length(schema) < SIZE_LIMIT
    ensures r == if IsPlain(schema) then Command(schema, a) else []
  {
    var length := GetPlainCommandLength(schema);
    if length == -1 {
      return [];
    }
    assert Command(schema[|schema|..], a) == [];
    assert schema[0..] == schema;
    assert forall i :: 0 <= i < |schema| ==> IsPlainField(schema[i]) || schema[i] == '_';
    hide *;
    var mbuf := new MBuf.Zeroed(length);
    for i := 0 to |schema|
      invariant mbuf.Valid() && fresh(mbuf) && fresh(mbuf.data) && !mbuf.rdonly
      invariant mbuf.data.Length - mbuf.pos == Length(schema[i..])
      invariant mbuf.data[..mbuf.pos] + Command(schema[i..], a) == Command(schema, a)
    {
      CommandFrom(schema, i, a);
      ghost var before := mbuf.data[..mbuf.pos];
      PutField(mbuf, schema[i], a);
      Regroup(before, Field(schema[i], a), Command(schema[i + 1..], a));
    }
    r := mbuf.ToVector();
  }

  lemma CommandFrom(schema: string, i: nat, a: Args)
    requires i < |schema|
    ensures Command(schema[i..], a) == Field(schema[i], a) + Command(schema[i + 1..], a)
    ensures Length(schema[i..]) == FieldLength(schema[i]) + Length(schema[i + 1..])
  {
    assert schema[i..][0] == schema[i] && schema[i..][1..] == schema[i + 1..];
  }

  lemma Regroup(a: bytes, b: bytes, c: bytes)
    ensures a + (b + c) == (a + b) + c
  {
  }

  /** The `switch` of the generator. */
  method PutField(mbuf: MBuf, ch: char, a: Args)
    requires mbuf.Valid() && !mbuf.rdonly && mbuf.data.Length - mbuf.pos >= FieldLength(ch)
    requires IsPlainField(ch) || ch == '_'
    modifies mbuf, mbuf.data
    ensures mbuf.Valid() && !mbuf.rdonly && mbuf.pos == old(mbuf.pos) + FieldLength(ch)
    ensures mbuf.data[..mbuf.pos] == old(mbuf.data[..mbuf.pos]) + Field(ch, a)
  {
    hide Be32, IdBytes;
    match ch
    case 'v' => Push32(mbuf, a.proto);
    case '0' => Push32(mbuf, 0);
    case 'p' => Push32(mbuf, a.pktType);
    case 'd' => Push32(mbuf, a.dev.id);
    case 'b' => Push32(mbuf, a.zeroOne);
    case 'u' => Push32(mbuf, a.some);
    case 'I' => PushId(mbuf, a.dev);
    case _ =>
  }

  /** What the matcher does from cursor `c` on; `hex` is the last value read, which a failing read keeps. */
  predicate Matches(schema: string, c: Cursor, hex: u32, a: Args)
    requires c.Ok()
    decreases |schema|
  {
    if schema == [] then !c.Broken()
    else if schema[0] == '_' || schema[0] == 'x' then Matches(schema[1..], c, hex, a)
    else if schema[0] == 'I' then Matches(schema[1..], SkipId(c), hex, a)
    else
      var v := Cut32(ReadBe(c, 4, hex));
      match schema[0]
      case 'v' => v == a.proto && Matches(schema[1..], Skip(c, 4), v, a)
      case '0' => v == 0 && Matches(schema[1..], Skip(c, 4), v, a)
      case 'p' => v == a.pktType && Matches(schema[1..], Skip(c, 4), v, a)
      case 'd' => v == a.dev.id && Matches(schema[1..], Skip(c, 4), v, a)
      case 'b' => v in {0, 1} && Matches(schema[1..], Skip(c, 4), v, a)
      case 'u' => Matches(schema[1..], Skip(c, 4), v, a)
      case 'l' => Matches(schema[1..], Seek(Skip(c, 4), ToInt32(v)), v, a)
      case _ => false
  }

  method IsMatch(schema: string, b: bytes, a: Args) returns (r: bool)
    requires |b| < SIZE_LIMIT
    ensures r == Matches(schema, Fresh(b), 0, a)
  {
    hide SkipId, ReadBe, Seek;
    var mbuf := new MBuf.Of(b, true);
    var hex: u32 := 0;
    var id := NO_ID;
    for i := 0 to |schema|
      invariant mbuf.Valid() && fresh(mbuf)
      invariant Matches(schema[i..], mbuf.View(), hex, a) == Matches(schema, Fresh(b), 0, a)
    {
      var ch := schema[i];
      assert schema[i..][0] == ch && schema[i..][1..] == schema[i + 1..];
      if ch == '_' {
        continue;
      } else if ch == 'x' {
      } else if ch == 'I' {
        id := ReadDevId(mbuf, id);
      } else if ch == 'v' || ch == '0' || ch == 'p' || ch == 'd' || ch == 'b' || ch == 'u' || ch == 'l' {
        hex := mbuf.Read(4, false, hex);
        if (ch == 'v' && hex != a.proto) || (ch == '0' && hex != 0) || (ch == 'p' && a.pktType != hex)
           || (ch == 'd' && hex != a.dev.id) || (ch == 'b' && hex != 0 && hex != 1) {
          return false;
        }
        if ch == 'l' {
          var _ := mbuf.MSeek(ToInt32(hex));
        }
      } else {
        return false;
      }
    }
    assert schema[|schema|..] == [];
    r := !mbuf.WasBroken();
  }

  // ---------------------------------------------------------------- what matching means

  /** The bytes from position `i` on have the form that the schema describes. */
  predicate Conforms(schema: string, b: bytes, i: nat, a: Args)
    requires i <= |b|
    decreases |schema|
  {
    if schema == [] then true
    else if schema[0] == '_' || schema[0] == 'x' then Conforms(schema[1..], b, i, a)
    else if schema[0] == 'I' then i + 12 <= |b| && Conforms(schema[1..], b, i + 12, a)
    else
      i + 4 <= |b| &&
      match schema[0]
      case 'v' => U32At(b, i) == a.proto && Conforms(schema[1..], b, i + 4, a)
      case '0' => U32At(b, i) == 0 && Conforms(schema[1..], b, i + 4, a)
      case 'p' => U32At(b, i) == a.pktType && Conforms(schema[1..], b, i + 4, a)
      case 'd' => U32At(b, i) == a.dev.id && Conforms(schema[1..], b, i + 4, a)
      case 'b' => U32At(b, i) in {0, 1} && Conforms(schema[1..], b, i + 4, a)
      case 'u' => Conforms(schema[1..], b, i + 4, a)
      case 'l' => 0 <= i + 4 + ToInt32(U32At(b, i)) <= |b| && Conforms(schema[1..], b, i + 4 + ToInt32(U32At(b, i)), a)
      case _ => false
  }

  /** How many operations the matcher performs that can fail. */
  function Reads(schema: string): nat {
    if schema == [] then 0
    else
      (if schema[0] == '_' || schema[0] == 'x' then 0 else if schema[0] == 'I' then 4 else if schema[0] == 'l' then 2 else 1)
      + Reads(schema[1..])
  }

  /** Where the matcher stands after one character: position, last value read, and failed reads. */
  datatype Look = Look(pos: nat, hex: u32, missed: nat)

  /** One character of the schema at position `i`; a read that fails keeps position and value. */
  function LookAt(ch: char, b: bytes, i: nat, hex: u32): (r: Look)
    requires i <= |b|
    ensures r.pos <= |b|
  {
    if ch == '_' || ch == 'x' then Look(i, hex, 0)
    else if ch == 'I' then LookAtId(b, i, hex)
    else
      var v := if i + 4 <= |b| then U32At(b, i) else hex;
      var (j, missed) := if i + 4 <= |b| then (i + 4, 0) else (i, 1);
      if ch != 'l' then Look(j, v, missed)
      else if 0 <= j + ToInt32(v) <= |b| then Look(j + ToInt32(v), v, missed)
      else Look(j, v, missed + 1)
  }

  /** One of the four reads of an id: `n` bytes. */
  function Pass(r: Look, size: nat, n: nat): Look {
    if r.pos + n <= size then r.(pos := r.pos + n) else r.(missed := r.missed + 1)
  }

  function LookAtId(b: bytes, i: nat, hex: u32): (r: Look)
    requires i <= |b|
    ensures r.pos <= |b| && (r.missed == 0 <==> i + 12 <= |b|) && (r.missed == 0 ==> r.pos == i + 12) && r.missed <= 4
  {
    Pass(Pass(Pass(Pass(Look(i, hex, 0), |b|, 4), |b|, 2), |b|, 2), |b|, 4)
  }

  /** How many reads fail, from position `i` on. */
  function Misses(schema: string, b: bytes, i: nat, hex: u32): nat
    requires i <= |b|
    decreases |schema|
  {
    if schema == [] then 0
    else
      var r := LookAt(schema[0], b, i, hex);
      r.missed + Misses(schema[1..], b, r.pos, r.hex)
  }

  /** Whether the value `v` that was read, or was left over from before, is the right one for a field. */
  predicate ValueFits(ch: char, v: u32, a: Args) {
    match ch
    case 'v' => v == a.proto
    case '0' => v == 0
    case 'p' => v == a.pktType
    case 'd' => v == a.dev.id
    case 'b' => v in {0, 1}
    case _ => ch in {'u', 'l', 'I', '_', 'x'}
  }

  /** Every value that is compared is right, those that could not be read included. */
  predicate Agrees(schema: string, b: bytes, i: nat, hex: u32, a: Args)
    requires i <= |b|
    decreases |schema|
  {
    schema != [] ==>
      var r := LookAt(schema[0], b, i, hex);
      ValueFits(schema[0], r.hex, a) && Agrees(schema[1..], b, r.pos, r.hex, a)
  }

  /** The cursor of the matcher moves as `LookAt` says. */
  lemma LookMoves(ch: char, c: Cursor, hex: u32)
    requires c.Ok() && ch !in {'_', 'x', 'I'}
    ensures var r, v := LookAt(ch, c.data, c.pos, hex), Cut32(ReadBe(c, 4, hex));
            && v == r.hex
            && (if ch == 'l' then Seek(Skip(c, 4), ToInt32(v)) else Skip(c, 4))
               == Cursor(c.data, r.pos, c.fails + r.missed, c.rdonly)
  {
    hide BeValue, ToInt32;
  }

  lemma IdMoves(c: Cursor, hex: u32)
    requires c.Ok()
    ensures var r := LookAtId(c.data, c.pos, hex);
            SkipId(c) == Cursor(c.data, r.pos, c.fails + r.missed, c.rdonly) && r.hex == hex
  {
  }

  lemma MatchesStep(schema: string, c: Cursor, hex: u32, a: Args)
    requires c.Ok() && schema != []
    ensures var r := LookAt(schema[0], c.data, c.pos, hex);
            Matches(schema, c, hex, a) <==>
              ValueFits(schema[0], r.hex, a) && Matches(schema[1..], Cursor(c.data, r.pos, c.fails + r.missed, c.rdonly), r.hex, a)
  {
    hide ReadBe, Skip, Seek, ToInt32, SkipId, LookAtId;
    if schema[0] == 'I' {
      IdMoves(c, hex);
    } else if schema[0] == '_' || schema[0] == 'x' {
      assert Cursor(c.data, c.pos, c.fails + 0, c.rdonly) == c;
    } else {
      LookMoves(schema[0], c, hex);
      hide LookAt;
    }
  }

  lemma {:induction false} MatchesCounts(schema: string, c: Cursor, hex: u32, a: Args)
    requires c.Ok()
    ensures Matches(schema, c, hex, a) <==>
      Agrees(schema, c.data, c.pos, hex, a) && (c.fails + Misses(schema, c.data, c.pos, hex)) % 256 == 0
    decreases |schema|
  {
    hide LookAt, ValueFits;
    if schema != [] {
      hide Matches;
      MatchesStep(schema, c, hex, a);
      var r := LookAt(schema[0], c.data, c.pos, hex);
      MatchesCounts(schema[1..], Cursor(c.data, r.pos, c.fails + r.missed, c.rdonly), r.hex, a);
    }
  }

  lemma {:induction false} ConformsCounts(schema: string, b: bytes, i: nat, hex: u32, a: Args)
    requires i <= |b|
    ensures Conforms(schema, b, i, a) <==> Agrees(schema, b, i, hex, a) && Misses(schema, b, i, hex) == 0
    decreases |schema|
  {
    hide BeValue, LookAtId;
    if schema != [] {
      var r := LookAt(schema[0], b, i, hex);
      ConformsCounts(schema[1..], b, r.pos, r.hex, a);
    }
  }

  lemma {:induction false} MissesBound(schema: string, b: bytes, i: nat, hex: u32)
    requires i <= |b|
    ensures Misses(schema, b, i, hex) <= Reads(schema)
    decreases |schema|
  {
    hide BeValue, LookAtId;
    if schema != [] {
      var r := LookAt(schema[0], b, i, hex);
      MissesBound(schema[1..], b, r.pos, r.hex);
    }
  }

  /**
   Exactly what the matcher accepts, for schemas of any length: byte strings that conform, and those on
   which some positive multiple of 256 reads fails and every comparison still comes out right, with the
   value of the last read that succeeded standing in for those that failed.
  */
  lemma MatchIff(schema: string, b: bytes, a: Args)
    requires |b| < SIZE_LIMIT
    ensures Matches(schema, Fresh(b), 0, a)
       <==> Conforms(schema, b, 0, a)
            || (Misses(schema, b, 0, 0) > 0 && Misses(schema, b, 0, 0) % 256 == 0 && Agrees(schema, b, 0, 0, a))
  {
    MatchesCounts(schema, Fresh(b), 0, a);
    ConformsCounts(schema, b, 0, 0, a);
  }

  /** So it accepts exactly the conforming byte strings for schemas with fewer than 256 reads. */
  lemma MatchIffConforms(schema: string, b: bytes, a: Args)
    requires |b| < SIZE_LIMIT && Reads(schema) < 256
    ensures Matches(schema, Fresh(b), 0, a) <==> Conforms(schema, b, 0, a)
  {
    MatchIff(schema, b, a);
    MissesBound(schema, b, 0, 0);
  }

  /** With one-word fields, the reads that fail are those that the length of the string leaves over. */
  lemma {:induction false} WordMisses(schema: string, b: bytes, i: nat, hex: u32)
    requires i <= |b| && IsPlain(schema) && 'I' !in schema
    ensures Misses(schema, b, i, hex) == Left(Reads(schema), (|b| - i) / 4)
    decreases |schema|
  {
    hide BeValue;
    if schema != [] {
      var r := LookAt(schema[0], b, i, hex);
      WordMisses(schema[1..], b, r.pos, r.hex);
    }
  }

  function Left(n: nat, m: nat): nat {
    if n <= m then 0 else n - m
  }

  /** From 256 reads on there are strings that match and do not conform: 256 free fields match the
      strings of fewer than four bytes, and of no other length below that of the command. */
  lemma LongSchemaMatchesNothing(b: bytes, a: Args)
    requires |b| < 1024
    ensures var schema := seq(256, i => 'u');
            !Conforms(schema, b, 0, a) && (Matches(schema, Fresh(b), 0, a) <==> |b| < 4)
  {
    var schema := seq(256, i => 'u');
    FreeFields(schema, b, 0, 0, a);
    MatchIff(schema, b, a);
    ConformsCounts(schema, b, 0, 0, a);
    WordMisses(schema, b, 0, 0);
  }

  lemma {:induction false} FreeFields(schema: string, b: bytes, i: nat, hex: u32, a: Args)
    requires i <= |b| && forall j :: 0 <= j < |schema| ==> schema[j] == 'u'
    ensures Agrees(schema, b, i, hex, a) && Reads(schema) == |schema|
    decreases |schema|
  {
    hide BeValue;
    if schema != [] {
      var r := LookAt(schema[0], b, i, hex);
      FreeFields(schema[1..], b, r.pos, r.hex, a);
    }
  }

  // ---------------------------------------------------------------- generator and matcher

  /** The position of field `j` in a plain command. */
  function Offset(schema: string, j: nat): nat
    requires j <= |schema|
  {
    Length(schema[..j])
  }

  /** The bytes of one field are acceptable: equal to the generated ones where the schema fixes them. */
  predicate FieldOk(ch: char, f: bytes, a: Args) {
    && (ch in {'v', '0', 'p', 'd'} ==> f == Field(ch, a))
    && (ch == 'b' ==> f == Be32(0) || f == Be32(1))
  }

  /** `b` is at least as long as the command, and each of its fields from position `i` on is acceptable. */
  ghost predicate FieldsOk(schema: string, b: bytes, i: nat, a: Args) {
    && i + Length(schema) <= |b|
    && forall j {:trigger schema[j]} :: 0 <= j < |schema| ==>
         Offset(schema, j) + FieldLength(schema[j]) <= Length(schema)
         && FieldOk(schema[j], b[i + Offset(schema, j)..i + Offset(schema, j) + FieldLength(schema[j])], a)
  }

  lemma {:induction false} OffsetBound(schema: string, j: nat)
    requires j < |schema|
    ensures Offset(schema, j) + FieldLength(schema[j]) <= Length(schema)
    ensures j > 0 ==> Offset(schema, j) == FieldLength(schema[0]) + Offset(schema[1..], j - 1)
    ensures j == 0 ==> Offset(schema, j) == 0
  {
    if j > 0 {
      assert schema[..j][1..] == schema[1..][..j - 1];
      OffsetBound(schema[1..], j - 1);
    }
  }

  lemma Be32Is(b: bytes, i: nat, v: u32)
    requires i + 4 <= |b|
    ensures b[i..i + 4] == Be32(v) <==> U32At(b, i) == v
  {
    Be32Of(b, i);
    if b[i..i + 4] == Be32(v) {
      U32AtIs(b, i, v);
    }
  }

  lemma FieldOkIs(ch: char, b: bytes, i: nat, a: Args)
    requires IsPlainField(ch) && i + FieldLength(ch) <= |b|
    ensures FieldOk(ch, b[i..i + FieldLength(ch)], a) <==>
      match ch
      case 'v' => U32At(b, i) == a.proto
      case '0' => U32At(b, i) == 0
      case 'p' => U32At(b, i) == a.pktType
      case 'd' => U32At(b, i) == a.dev.id
      case 'b' => U32At(b, i) in {0, 1}
      case _ => true
  {
    hide Be32, U32At;
    if ch != 'I' {
      Be32Is(b, i, 0);
      Be32Is(b, i, 1);
      Be32Is(b, i, a.proto);
      Be32Is(b, i, a.pktType);
      Be32Is(b, i, a.dev.id);
    }
  }

  lemma FieldsOkStep(schema: string, b: bytes, i: nat, a: Args)
    requires schema != [] && i <= |b|
    ensures FieldsOk(schema, b, i, a) <==>
      && i + FieldLength(schema[0]) <= |b|
      && FieldOk(schema[0], b[i..i + FieldLength(schema[0])], a)
      && FieldsOk(schema[1..], b, i + FieldLength(schema[0]), a)
  {
    hide FieldOk, FieldLength;
    var n := FieldLength(schema[0]);
    OffsetBound(schema, 0);
    if FieldsOk(schema, b, i, a) {
      assert schema[0] == schema[0];
      forall j {:trigger schema[1..][j]} | 0 <= j < |schema[1..]|
        ensures Offset(schema[1..], j) + FieldLength(schema[1..][j]) <= Length(schema[1..])
        ensures FieldOk(schema[1..][j], b[i + n + Offset(schema[1..], j)..i + n + Offset(schema[1..], j) + FieldLength(schema[1..][j])], a)
      {
        OffsetBound(schema, j + 1);
        OffsetBound(schema[1..], j);
        assert schema[1..][j] == schema[j + 1];
      }
    }
    if i + n <= |b| && FieldOk(schema[0], b[i..i + n], a) && FieldsOk(schema[1..], b, i + n, a) {
      forall j {:trigger schema[j]} | 0 <= j < |schema|
        ensures Offset(schema, j) + FieldLength(schema[j]) <= Length(schema)
        ensures FieldOk(schema[j], b[i + Offset(schema, j)..i + Offset(schema, j) + FieldLength(schema[j])], a)
      {
        OffsetBound(schema, j);
        if j > 0 {
          assert schema[1..][j - 1] == schema[j];
        }
      }
    }
  }

  lemma {:induction false} ConformsIffFields(schema: string, b: bytes, i: nat, a: Args)
    requires IsPlain(schema) && i <= |b|
    ensures Conforms(schema, b, i, a) <==> FieldsOk(schema, b, i, a)
    decreases |schema|
  {
    hide FieldOk, FieldsOk, U32At;
    if schema == [] {
      NoFieldsOk(b, i, a);
    } else {
      FieldsOkStep(schema, b, i, a);
      var n := FieldLength(schema[0]);
      if i + n <= |b| {
        ConformsIffFields(schema[1..], b, i + n, a);
        if schema[0] == '_' {
          UnderscoreOk(b[i..i + n], a);
        } else {
          FieldOkIs(schema[0], b, i, a);
        }
      }
    }
  }

  lemma NoFieldsOk(b: bytes, i: nat, a: Args)
    requires i <= |b|
    ensures FieldsOk([], b, i, a)
  {
  }

  lemma UnderscoreOk(f: bytes, a: Args)
    ensures FieldOk('_', f, a)
  {
  }

  /**
   Exactly what the matcher accepts for a schema of fixed length: every byte string that is at least
   as long as the command and whose fields equal the generated ones wherever the schema fixes them.
  */
  lemma AcceptedIff(schema: string, b: bytes, a: Args)
    requires IsPlain(schema) && Reads(schema) < 256 && |b| < SIZE_LIMIT
    ensures Matches(schema, Fresh(b), 0, a) <==> FieldsOk(schema, b, 0, a)
  {
    MatchIffConforms(schema, b, a);
    ConformsIffFields(schema, b, 0, a);
  }

  /** Field `j` of the generated command is where `Offset` says. */
  lemma {:induction false} CommandField(schema: string, a: Args, j: nat)
    requires j < |schema|
    ensures Offset(schema, j) + FieldLength(schema[j]) <= Length(schema)
    ensures Command(schema, a)[Offset(schema, j)..Offset(schema, j) + FieldLength(schema[j])] == Field(schema[j], a)
  {
    OffsetBound(schema, j);
    var f, rest := Field(schema[0], a), Command(schema[1..], a);
    var k := FieldLength(schema[j]);
    assert Command(schema, a) == f + rest;
    if j > 0 {
      CommandField(schema[1..], a, j - 1);
      var o := Offset(schema[1..], j - 1);
      assert schema[1..][j - 1] == schema[j];
      assert Offset(schema, j) == |f| + o;
      hide *;
      TailSlice(f, rest, o, o + k);
    } else {
      hide *;
      assert (f + rest)[0..|f|] == f;
    }
  }

  lemma TailSlice(f: bytes, rest: bytes, i: nat, j: nat)
    requires i <= j <= |rest|
    ensures (f + rest)[|f| + i..|f| + j] == rest[i..j]
  {
  }

  /** Nothing is missing from a generated command, and it agrees with its schema exactly when its 'b'
      fields, if any, are 0 or 1. */
  lemma {:induction false} GeneratedAgrees(schema: string, prefix: bytes, hex: u32, a: Args)
    requires IsPlain(schema)
    ensures var b := prefix + Command(schema, a);
            && Misses(schema, b, |prefix|, hex) == 0
            && (Agrees(schema, b, |prefix|, hex, a) <==> ('b' in schema ==> a.zeroOne in {0, 1}))
    decreases |schema|
  {
    hide LookAt, ValueFits, Field;
    var b := prefix + Command(schema, a);
    if schema != [] {
      var f, rest := Field(schema[0], a), Command(schema[1..], a);
      Regroup(prefix, f, rest);
      GeneratedLook(schema[0], prefix, rest, hex, a);
      GeneratedAgrees(schema[1..], prefix + f, if schema[0] in "_I" then hex else FieldValue(schema[0], a), a);
      assert schema == [schema[0]] + schema[1..];
    }
  }

  lemma GeneratedLook(ch: char, prefix: bytes, rest: bytes, hex: u32, a: Args)
    requires ch == '_' || IsPlainField(ch)
    ensures var v := if ch in "_I" then hex else FieldValue(ch, a);
            && LookAt(ch, prefix + (Field(ch, a) + rest), |prefix|, hex) == Look(|prefix| + |Field(ch, a)|, v, 0)
            && (ValueFits(ch, v, a) <==> (ch == 'b' ==> a.zeroOne in {0, 1}))
  {
    hide Be32, IdBytes, U32At;
    var b := prefix + (Field(ch, a) + rest);
    if ch !in "_I" {
      assert b[|prefix|..|prefix| + 4] == Be32(FieldValue(ch, a));
      U32AtIs(b, |prefix|, FieldValue(ch, a));
    }
  }

  function FieldValue(ch: char, a: Args): u32 {
    match ch
    case 'v' => a.proto
    case 'p' => a.pktType
    case 'd' => a.dev.id
    case 'b' => a.zeroOne
    case 'u' => a.some
    case _ => 0
  }

  /** The inverse property: what the generator writes, the matcher of the same schema accepts. */
  lemma GenerateThenMatch(schema: string, a: Args)
    requires IsPlain(schema) && Length(schema) < SIZE_LIMIT
    ensures |Command(schema, a)| == Length(schema)
    ensures Matches(schema, Fresh(Command(schema, a)), 0, a) <==> ('b' in schema ==> a.zeroOne in {0, 1})
  {
    GeneratedAgrees(schema, [], 0, a);
    assert [] + Command(schema, a) == Command(schema, a);
    MatchesCounts(schema, Fresh(Command(schema, a)), 0, a);
  }
}
