/**
 The bounded buffer with a cursor that all encoders and decoders use.

 A failed operation changes nothing but an overflow counter, which is one byte wide: after 256
 failures the buffer looks unbroken again. `Cursor` is the buffer's value, with the true number
 of failures; the class `MBuf` keeps the byte the source keeps.
*/
module MBufs {
  import opened Words
  import opened Bytes

  const SIZE_LIMIT := 0x8000_0000

  datatype Cursor = Cursor(data: bytes, pos: nat, fails: nat, rdonly: bool) {

    /** The source computes positions with `int`. */
    predicate Ok() {
      pos <= |data| < SIZE_LIMIT
    }

    predicate Broken() {
      fails % 256 != 0
    }

    function Rest(): int {
      |data| - pos
    }

    /** Everything before the cursor. */
    function Written(): bytes
      requires Ok()
    {
      data[..pos]
    }

    function Fail(): Cursor {
      this.(fails := fails + 1)
    }
  }

  function Fresh(b: bytes): Cursor {
    Cursor(b, 0, 0, true)
  }

  /** A zero-filled buffer for writing. */
  function Blank(size: nat): Cursor {
    Cursor(seq(size, i => 0), 0, 0, false)
  }

  // ---------------------------------------------------------------- operations on the value

  function Skip(c: Cursor, n: nat): (r: Cursor)
    requires c.Ok()
    ensures r.Ok() && r.data == c.data && r.rdonly == c.rdonly
  {
    if c.Rest() < n then c.Fail() else c.(pos := c.pos + n)
  }

  /** The value read by `>>`; `old` is what the target variable held, and keeps on failure. */
  function ReadBe(c: Cursor, n: nat, old_: nat): nat
    requires c.Ok()
  {
    if c.Rest() < n then old_ else BeValue(c.data[c.pos..c.pos + n])
  }

  function ReadLe(c: Cursor, n: nat, old_: nat): nat
    requires c.Ok()
  {
    if c.Rest() < n then old_ else LeValue(c.data[c.pos..c.pos + n])
  }

  /** `<<` and `memwrite`: nothing happens on a read-only buffer. */
  function Put(c: Cursor, bs: bytes): (r: Cursor)
    requires c.Ok()
    ensures r.Ok() && |r.data| == |c.data| && r.rdonly == c.rdonly
    ensures !c.rdonly && c.Rest() >= |bs| ==>
      r.Written() == c.Written() + bs && r.fails == c.fails && r.pos == c.pos + |bs|
    ensures c.rdonly || c.Rest() < |bs| ==> r.data == c.data && r.pos == c.pos
  {
    if c.rdonly then c
    else Store(c, bs)
  }

  /** Appending another buffer ignores the read-only flag. */
  function Store(c: Cursor, bs: bytes): (r: Cursor)
    requires c.Ok()
    ensures r.Ok() && |r.data| == |c.data| && r.rdonly == c.rdonly
    ensures c.Rest() >= |bs| ==>
      r.Written() == c.Written() + bs && r.fails == c.fails && r.pos == c.pos + |bs|
    ensures c.Rest() < |bs| ==> r == c.Fail()
  {
    if c.Rest() < |bs| then c.Fail()
    else c.(data := c.data[..c.pos] + bs + c.data[c.pos + |bs|..], pos := c.pos + |bs|)
  }

  function Seek(c: Cursor, offset: int): (r: Cursor)
    requires c.Ok()
    ensures r.Ok() && r.data == c.data && r.rdonly == c.rdonly
  {
    if |c.data| < c.pos + offset || c.pos + offset < 0 then c.Fail() else c.(pos := c.pos + offset)
  }

  function TotSeek(c: Cursor, offset: int): (r: Cursor)
    requires c.Ok()
    ensures r.Ok() && r.data == c.data && r.rdonly == c.rdonly
  {
    if offset >= |c.data| || offset < 0 then c.Fail() else c.(pos := offset)
  }

  // ---------------------------------------------------------------- any sequence of operations

  datatype Op = Get(n: nat) | Write(bs: bytes) | Append(bs: bytes) | MoveBy(offset: int) | MoveTo(offset: int)

  function Exec(c: Cursor, op: Op): (r: Cursor)
    requires c.Ok()
    ensures r.Ok()
  {
    match op
    case Get(n) => Skip(c, n)
    case Write(bs) => Put(c, bs)
    case Append(bs) => Store(c, bs)
    case MoveBy(offset) => Seek(c, offset)
    case MoveTo(offset) => TotSeek(c, offset)
  }

  function ExecAll(c: Cursor, ops: seq<Op>): (r: Cursor)
    requires c.Ok()
    ensures r.Ok()
    decreases |ops|
  {
    if ops == [] then c else ExecAll(Exec(c, ops[0]), ops[1..])
  }

  /** The operation does not fit where the cursor stands. */
  predicate Rejected(c: Cursor, op: Op) {
    match op
    case Get(n) => c.Rest() < n
    case Write(bs) => !c.rdonly && c.Rest() < |bs|
    case Append(bs) => c.Rest() < |bs|
    case MoveBy(offset) => !(0 <= c.pos + offset <= |c.data|)
    case MoveTo(offset) => !(0 <= offset < |c.data|)
  }

  function Failures(c: Cursor, ops: seq<Op>): nat
    requires c.Ok()
    decreases |ops|
  {
    if ops == [] then 0
    else (if Rejected(c, ops[0]) then 1 else 0) + Failures(Exec(c, ops[0]), ops[1..])
  }

  /** Byte `i` lies in a range that some operation of the sequence wrote successfully. */
  predicate Touched(c: Cursor, ops: seq<Op>, i: nat)
    requires c.Ok()
    decreases |ops|
  {
    ops != [] &&
    (|| ((ops[0].Write? || ops[0].Append?) && !Rejected(c, ops[0]) && !(ops[0].Write? && c.rdonly)
         && c.pos <= i < c.pos + |ops[0].bs|)
     || Touched(Exec(c, ops[0]), ops[1..], i))
  }

  /**
   Whatever is done to a buffer: its length never changes, the cursor stays inside it, every byte
   outside the successful writes keeps its value, and the failure count is the number of
   operations that did not fit.
  */
  lemma {:induction false} BufferSafety(c: Cursor, ops: seq<Op>)
    requires c.Ok()
    ensures ExecAll(c, ops).pos <= |ExecAll(c, ops).data| == |c.data|
    ensures forall i :: 0 <= i < |c.data| && !Touched(c, ops, i) ==> ExecAll(c, ops).data[i] == c.data[i]
    ensures ExecAll(c, ops).fails == c.fails + Failures(c, ops)
    decreases |ops|
  {
    if ops != [] {
      BufferSafety(Exec(c, ops[0]), ops[1..]);
    }
  }

  /** The overflow flag tells the truth exactly when the number of failures is no positive multiple of 256. */
  lemma BrokenFlag(c: Cursor, ops: seq<Op>)
    requires c.Ok() && c.fails == 0
    ensures ExecAll(c, ops).Broken() == (Failures(c, ops) > 0) <==> Failures(c, ops) == 0 || Failures(c, ops) % 256 != 0
    ensures Failures(c, ops) < 256 ==> (ExecAll(c, ops).Broken() <==> Failures(c, ops) > 0)
  {
    BufferSafety(c, ops);
  }

  lemma {:induction false} RepeatedReads(c: Cursor, k: nat)
    requires c.Ok() && c.data == []
    ensures ExecAll(c, seq(k, i => Get(1))) == c.(fails := c.fails + k)
    decreases k
  {
    if k > 0 {
      var ops := seq(k, i => Get(1));
      assert ops[1..] == seq(k - 1, i => Get(1));
      RepeatedReads(c.Fail(), k - 1);
    }
  }

  /** The witness: 256 failed reads, and the buffer claims to be unbroken. */
  lemma FlagWrapsAround()
    ensures var ops := seq(256, i => Get(1)); Failures(Fresh([]), ops) == 256 && !ExecAll(Fresh([]), ops).Broken()
  {
    RepeatedReads(Fresh([]), 256);
    BufferSafety(Fresh([]), seq(256, i => Get(1)));
  }

  // ---------------------------------------------------------------- the class

  class MBuf {
    const data: array<u8>
    var pos: nat
    var ovrflow: u8
    var rdonly: bool
    ghost var fails: nat

    ghost predicate Valid()
      reads this
    {
      pos <= data.Length < SIZE_LIMIT && ovrflow == fails % 256
    }

    ghost function View(): (c: Cursor)
      reads this, data
      requires Valid()
      ensures c.Ok()
    {
      Cursor(data[..], pos, fails, rdonly)
    }

    constructor Of(ready: bytes, readonly: bool)
      requires |ready| < SIZE_LIMIT
      ensures Valid() && fresh(data) && View() == Fresh(ready).(rdonly := readonly)
    {
      data := new u8[|ready|](i requires 0 <= i < |ready| => ready[i]);
      pos, ovrflow, rdonly, fails := 0, 0, readonly, 0;
      new;
      assert data[..] == ready;
    }

    constructor Zeroed(size: nat)
      requires size < SIZE_LIMIT
      ensures Valid() && fresh(data) && View() == Blank(size)
    {
      data := new u8[size](i => 0);
      pos, ovrflow, rdonly, fails := 0, 0, false, 0;
      new;
      assert data[..] == seq(size, i => 0);
    }

    method CountFailure()
      requires Valid()
      modifies this`ovrflow, this`fails
      ensures Valid() && View() == old(View()).Fail()
    {
      ovrflow := (ovrflow + 1) % 256;
      fails := fails + 1;
    }

    /** `>> HexN`: `v` is the variable's value before, the result its value after. */
    method Read(n: nat, littleEndian: bool, v: u32) returns (r: u32)
      requires Valid() && n <= 4
      modifies this
      ensures Valid() && View() == Skip(old(View()), n)
      ensures r == if littleEndian then ReadLe(old(View()), n, v) else ReadBe(old(View()), n, v)
    {
      if data.Length - pos < n {
        CountFailure();
        r := v;
      } else {
        r := GetStream(n, littleEndian);
        pos := pos + n;
      }
    }

    /** Accumulates `n` bytes by shifting, from the last one backwards in little-endian order. */
    method GetStream(n: nat, littleEndian: bool) returns (val: u32)
      requires Valid() && n <= 4 && data.Length - pos >= n
      ensures val == if littleEndian then LeValue(data[pos..pos + n]) else BeValue(data[pos..pos + n])
    {
      hide LeValue, BeValue, Pow256;
      PowUpTo4(n);
      if littleEndian {
        LeValueBound(data[pos..pos + n]);
        val := GetLittleEndian(n);
      } else {
        BeValueBound(data[pos..pos + n]);
        val := GetBigEndian(n);
      }
    }

    method GetLittleEndian(n: nat) returns (val: nat)
      requires Valid() && data.Length - pos >= n
      ensures val == LeValue(data[pos..pos + n])
    {
      ghost var b := data[..];
      val := 0;
      assert LeValue([]) == 0;
      hide LeValue;
      for i := 0 to n
        invariant val == LeValue(b[pos + n - i..pos + n])
      {
        LeValueSlice(b, pos + n - i - 1, pos + n);
        val := val * 256 + data[pos + n - i - 1];
      }
    }

    method GetBigEndian(n: nat) returns (val: nat)
      requires Valid() && data.Length - pos >= n
      ensures val == BeValue(data[pos..pos + n])
    {
      ghost var b := data[..];
      val := 0;
      assert BeValue([]) == 0;
      hide BeValue;
      for i := 0 to n
        invariant val == BeValue(b[pos..pos + i])
      {
        BeValueSlice(b, pos, pos + i);
        val := val * 256 + data[pos + i];
      }
    }

    static lemma PowUpTo4(n: nat)
      requires n <= 4
      ensures Pow256(n) <= 0x1_0000_0000
    {
      assert Pow256(3) == 0x100_0000;
    }

    /** `<< HexN`: writes the `n` low bytes of `val`. */
    method Write(n: nat, littleEndian: bool, val: u32)
      requires Valid() && n <= 4
      modifies this, data
      ensures Valid() && View() == Put(old(View()), if littleEndian then Le(val, n) else Be(val, n))
    {
      if !rdonly {
        if data.Length - pos < n {
          CountFailure();
        } else {
          PutStream(n, littleEndian, val);
          pos := pos + n;
        }
      }
    }

    /** Writes byte by byte, shifting the value. */
    method PutStream(n: nat, littleEndian: bool, val: u32)
      requires Valid() && n <= 4 && data.Length - pos >= n
      modifies data
      ensures var bs := if littleEndian then Le(val, n) else Be(val, n);
              data[..] == old(data[..pos]) + bs + old(data[pos + n..])
    {
      ghost var bs := if littleEndian then Le(val, n) else Be(val, n);
      for i := 0 to n
        invariant forall k :: 0 <= k < data.Length ==>
                    data[k] == if pos <= k < pos + i then bs[k - pos] else old(data[k])
      {
        LeAt(val, n, i);
        BeAt(val, n, i);
        data[pos + i] := (val / Pow256(if littleEndian then i else n - 1 - i)) % 256;
      }
    }

    /** Copies bytes to the cursor; the caller has checked that they fit. */
    method Copy(bs: bytes)
      requires Valid() && data.Length - pos >= |bs|
      modifies this`pos, data
      ensures Valid() && View() == Store(old(View()), bs)
    {
      ghost var before := data[..];
      forall i | 0 <= i < |bs| {
        data[pos + i] := bs[i];
      }
      assert data[..] == before[..pos] + bs + before[pos + |bs|..];
      pos := pos + |bs|;
    }

    method MemWrite(bs: bytes) returns (n: nat)
      requires Valid()
      modifies this, data
      ensures Valid() && View() == Put(old(View()), bs)
      ensures n == if !old(rdonly) && old(View()).Rest() >= |bs| then |bs| else 0
    {
      if rdonly {
        return 0;
      }
      if data.Length - pos < |bs| {
        CountFailure();
        return 0;
      }
      Copy(bs);
      return |bs|;
    }

    method AppendBuffer(bs: bytes)
      requires Valid()
      modifies this, data
      ensures Valid() && View() == Store(old(View()), bs)
    {
      if data.Length - pos < |bs| {
        CountFailure();
      } else {
        Copy(bs);
      }
    }

    /** Unlike `TotalSeek`, the answer is true when something has failed. */
    method MSeek(offset: int) returns (broken: bool)
      requires Valid()
      modifies this
      ensures Valid() && View() == Seek(old(View()), offset) && broken == View().Broken()
    {
      if data.Length < pos + offset || pos + offset < 0 {
        CountFailure();
      } else {
        pos := pos + offset;
      }
      broken := ovrflow != 0;
    }

    method TotalSeek(offset: int) returns (fine: bool)
      requires Valid()
      modifies this
      ensures Valid() && View() == TotSeek(old(View()), offset) && fine == !View().Broken()
    {
      if offset >= data.Length || offset < 0 {
        CountFailure();
      } else {
        pos := offset;
      }
      fine := ovrflow == 0;
    }

    function WasBroken(): (r: bool)
      reads this
      requires Valid()
      ensures r <==> fails % 256 != 0
    {
      ovrflow != 0
    }

    function RestOfSize(): (r: nat)
      reads this
      requires Valid()
      ensures r == data.Length - pos
    {
      data.Length - pos
    }

    /** `to_vector()`: of a read-only buffer that was not read yet, everything; else what is before the cursor. */
    method ToVector() returns (r: bytes)
      requires Valid()
      ensures r == if rdonly && pos == 0 then data[..] else data[..pos]
    {
      if rdonly && pos == 0 {
        r := data[..];
      } else {
        r := data[..pos];
      }
    }

    method RestToVector() returns (r: bytes)
      requires Valid()
      ensures r == data[pos..]
    {
      r := data[pos..];
    }
  }
}
