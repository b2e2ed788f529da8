/** 12-byte device identifiers: their order, their wire format, and reading and writing them. */
module DevIds {
  import opened Words
  import opened Bytes
  import opened MBufs

  datatype DevId = DevId(reserve: u32, vid: u16, pid: u16, id: u32) {

    /** `operator <` of the source. */
    predicate Less(o: DevId) {
      vid < o.vid || pid < o.pid || id < o.id
    }
  }

  const NO_ID := DevId(0, 0, 0, 0)

  /** The order is not one: two ids that each come before the other. */
  lemma OrderFails()
    ensures DevId(0, 1, 2, 0).Less(DevId(0, 2, 1, 0)) && DevId(0, 2, 1, 0).Less(DevId(0, 1, 2, 0))
  {
  }

  /** What `std::map` needs of its keys: a strict total order that agrees with equality. */
  ghost predicate OrdersKeys(keys: set<DevId>) {
    && (forall a: DevId :: a in keys ==> !a.Less(a))
    && (forall a: DevId, b: DevId :: a in keys && b in keys && a.Less(b) ==> !b.Less(a))
    && (forall a: DevId, b: DevId, c: DevId :: a in keys && b in keys && c in keys && a.Less(b) && b.Less(c) ==> a.Less(c))
    && (forall a: DevId, b: DevId :: a in keys && b in keys ==> (a != b <==> a.Less(b) || b.Less(a)))
  }

  /** In every field but `reserve`, not greater. */
  predicate Below(a: DevId, b: DevId) {
    a.vid <= b.vid && a.pid <= b.pid && a.id <= b.id
  }

  /**
   Exactly which sets of ids can be keys: any two of them are ordered the same way by all three fields,
   and no two differ only in `reserve`, which the order ignores.
  */
  lemma OrdersKeysIff(keys: set<DevId>)
    ensures OrdersKeys(keys) <==>
      forall a: DevId, b: DevId :: a in keys && b in keys && a != b ==>
        (Below(a, b) || Below(b, a)) && (a.vid, a.pid, a.id) != (b.vid, b.pid, b.id)
  {
    if OrdersKeys(keys) {
      forall a: DevId, b: DevId | a in keys && b in keys && a != b
        ensures (Below(a, b) || Below(b, a)) && (a.vid, a.pid, a.id) != (b.vid, b.pid, b.id)
      {
        assert a.Less(b) || b.Less(a);
      }
    }
  }

  /** Ids of one family, which differ in nothing but their serial number, can be keys; they are
      ordered by it. */
  lemma FamilyOrdersKeys(keys: set<DevId>, f: DevId)
    requires forall a: DevId :: a in keys ==> (a.vid, a.pid, a.reserve) == (f.vid, f.pid, f.reserve)
    ensures OrdersKeys(keys)
    ensures forall a: DevId, b: DevId :: a in keys && b in keys ==> (a.Less(b) <==> a.id < b.id)
  {
    OrdersKeysIff(keys);
  }

  // ---------------------------------------------------------------- wire format

  function IdBytes(d: DevId): (r: bytes)
    ensures |r| == 12
  {
    Be32(d.reserve) + Be16(d.vid) + Be16(d.pid) + Be32(d.id)
  }

  function IdAt(b: bytes, i: nat): DevId
    requires i + 12 <= |b|
  {
    DevId(U32At(b, i), U16At(b, i + 4), U16At(b, i + 6), U32At(b, i + 8))
  }

  lemma IdAtIs(b: bytes, i: nat, d: DevId)
    requires i + 12 <= |b| && b[i..i + 12] == IdBytes(d)
    ensures IdAt(b, i) == d
  {
    var w := b[i..i + 12];
    assert w[0..4] == Be32(d.reserve) && w[4..6] == Be16(d.vid) && w[6..8] == Be16(d.pid) && w[8..12] == Be32(d.id);
    SliceOfSlice(b, i, i + 12, 0, 4);
    SliceOfSlice(b, i, i + 12, 4, 6);
    SliceOfSlice(b, i, i + 12, 6, 8);
    SliceOfSlice(b, i, i + 12, 8, 12);
    U32AtIs(b, i, d.reserve);
    U16AtIs(b, i + 4, d.vid);
    U16AtIs(b, i + 6, d.pid);
    U32AtIs(b, i + 8, d.id);
  }

  lemma IdBytesOf(b: bytes, i: nat)
    requires i + 12 <= |b|
    ensures IdBytes(IdAt(b, i)) == b[i..i + 12]
  {
    Be32Of(b, i);
    Be16Of(b, i + 4);
    Be16Of(b, i + 6);
    Be32Of(b, i + 8);
    assert b[i..i + 12] == b[i..i + 4] + b[i + 4..i + 6] + b[i + 6..i + 8] + b[i + 8..i + 12];
  }

  /** The twelve bytes of an id, in order: reserve, vendor, product and serial number, each with its most
      significant byte first. */
  lemma KnownId()
    ensures IdBytes(DevId(0x01020304, 0x0506, 0x0708, 0x090A0B0C)) == [1, 2, 3, 4, 5, 6, 7, 8, 9, 10, 11, 12]
  {
    WordBytes(1, 2, 3, 4);
    WordBytes(9, 10, 11, 12);
    HalfBytes(5, 6);
    HalfBytes(7, 8);
    hide Be32, Be16;
  }

  lemma HalfBytes(b0: u8, b1: u8)
    ensures Be16(b0 * 0x100 + b1) == [b0, b1]
  {
    assert Be(b0, 1) == [b0];
    assert (b0 * 0x100 + b1) / 256 == b0;
  }

  lemma WordBytes(b0: u8, b1: u8, b2: u8, b3: u8)
    ensures Be32(b0 * 0x100_0000 + b1 * 0x1_0000 + b2 * 0x100 + b3) == [b0, b1, b2, b3]
  {
    var v2, v3 := b0 * 0x100 + b1, b0 * 0x1_0000 + b1 * 0x100 + b2;
    assert Be(b0, 1) == [b0];
    assert Be(v2, 2) == [b0, b1];
    assert v3 / 256 == v2;
    assert Be(v3, 3) == [b0, b1, b2];
    assert (b0 * 0x100_0000 + b1 * 0x1_0000 + b2 * 0x100 + b3) / 256 == v3;
  }

  function ListBytes(ds: seq<DevId>): (r: bytes)
    ensures |r| == 12 * |ds|
  {
    if ds == [] then [] else IdBytes(ds[0]) + ListBytes(ds[1..])
  }

  lemma {:induction false} ListBytesSnoc(ds: seq<DevId>, d: DevId)
    ensures ListBytes(ds + [d]) == ListBytes(ds) + IdBytes(d)
  {
    if ds == [] {
      assert ListBytes([d]) == IdBytes(d) + ListBytes([]);
    } else {
      ListBytesSnoc(ds[1..], d);
      assert (ds + [d])[1..] == ds[1..] + [d];
    }
  }

  // ---------------------------------------------------------------- through the buffer

  /** Four writes; on a full buffer some of them fail and narrower ones may still succeed. */
  function PutId(c: Cursor, d: DevId): (r: Cursor)
    requires c.Ok()
    ensures r.Ok() && |r.data| == |c.data| && r.rdonly == c.rdonly
    ensures !c.rdonly && c.Rest() >= 12 ==>
      r.Written() == c.Written() + IdBytes(d) && r.fails == c.fails && r.pos == c.pos + 12
  {
    Put(Put(Put(Put(c, Be32(d.reserve)), Be16(d.vid)), Be16(d.pid)), Be32(d.id))
  }

  function SkipId(c: Cursor): (r: Cursor)
    requires c.Ok()
    ensures r.Ok() && r.data == c.data && r.rdonly == c.rdonly
    ensures c.Rest() >= 12 ==> r == c.(pos := c.pos + 12)
    ensures c.Rest() < 12 ==> c.fails < r.fails
    ensures c.fails <= r.fails <= c.fails + 4
  {
    Skip(Skip(Skip(Skip(c, 4), 2), 2), 4)
  }

  function Cut16(v: nat): u16 {
    v % 0x1_0000
  }

  function Cut32(v: nat): u32 {
    v % 0x1_0000_0000
  }

  /** Four reads; a field that does not fit keeps what it held. */
  function ReadId(c: Cursor, d: DevId): DevId
    requires c.Ok()
  {
    var c1 := Skip(c, 4);
    var c2 := Skip(c1, 2);
    var c3 := Skip(c2, 2);
    DevId(Cut32(ReadBe(c, 4, d.reserve)), Cut16(ReadBe(c1, 2, d.vid)),
          Cut16(ReadBe(c2, 2, d.pid)), Cut32(ReadBe(c3, 4, d.id)))
  }

  lemma ReadIdIs(c: Cursor, d: DevId)
    requires c.Ok() && c.Rest() >= 12
    ensures ReadId(c, d) == IdAt(c.data, c.pos)
  {
  }

  method WriteDevId(m: MBuf, d: DevId)
    requires m.Valid()
    modifies m, m.data
    ensures m.Valid() && m.View() == PutId(old(m.View()), d)
  {
    m.Write(4, false, d.reserve);
    m.Write(2, false, d.vid);
    m.Write(2, false, d.pid);
    m.Write(4, false, d.id);
  }

  /** `<< Hex32(v)` where it is known to fit. */
  method Push32(m: MBuf, v: u32)
    requires m.Valid() && !m.rdonly && m.data.Length - m.pos >= 4
    modifies m, m.data
    ensures m.Valid() && !m.rdonly && m.pos == old(m.pos) + 4 && m.fails == old(m.fails)
    ensures m.data[..m.pos] == old(m.data[..m.pos]) + Be32(v)
  {
    hide Be;
    m.Write(4, false, v);
    assert m.View().Written() == old(m.View()).Written() + Be32(v);
  }

  /** `<< HexIDev3(&d)` where it is known to fit. */
  method PushId(m: MBuf, d: DevId)
    requires m.Valid() && !m.rdonly && m.data.Length - m.pos >= 12
    modifies m, m.data
    ensures m.Valid() && !m.rdonly && m.pos == old(m.pos) + 12 && m.fails == old(m.fails)
    ensures m.data[..m.pos] == old(m.data[..m.pos]) + IdBytes(d)
  {
    hide Be;
    WriteDevId(m, d);
    assert m.View().Written() == old(m.View()).Written() + IdBytes(d);
  }

  /** `memwrite` where it is known to fit. */
  method PushBytes(m: MBuf, bs: bytes)
    requires m.Valid() && !m.rdonly && m.data.Length - m.pos >= |bs|
    modifies m, m.data
    ensures m.Valid() && !m.rdonly && m.pos == old(m.pos) + |bs| && m.fails == old(m.fails)
    ensures m.data[..m.pos] == old(m.data[..m.pos]) + bs
  {
    var _ := m.MemWrite(bs);
    assert m.View().Written() == old(m.View()).Written() + bs;
  }

  method ReadDevId(m: MBuf, d: DevId) returns (r: DevId)
    requires m.Valid()
    modifies m
    ensures m.Valid() && m.View() == SkipId(old(m.View())) && r == ReadId(old(m.View()), d)
  {
    var reserve := m.Read(4, false, d.reserve);
    var vid := m.Read(2, false, d.vid);
    var pid := m.Read(2, false, d.pid);
    var id := m.Read(4, false, d.id);
    r := DevId(reserve, vid % 0x1_0000, pid % 0x1_0000, id);
  }
}
