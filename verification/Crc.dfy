/**
 The checksum of serial frames: the CRC-16 of section 6.2.2 of "MODBUS over Serial Line
 Specification and Implementation Guide V1.02" (polynomial 0xA001, initial value 0xFFFF).

 The reference definition is the shift register that takes a message bit by bit, least
 significant bit of each byte first, and the byte-wise algorithm computes the same. A shift is a
 multiplication with x in the ring of polynomials modulo the generator, so that many shifts are
 computed by repeated squaring.
*/
module Crcs {

  const POLYNOMIAL: bv16 := 0xA001
  const INITIAL: bv16 := 0xFFFF

  type bits = seq<bool>

  // ---------------------------------------------------------------- the register

  predicate Odd(x: bv16) {
    x & 1 == 1
  }

  function Half(x: bv16): bv16 {
    x >> 1
  }

  function Load(c: bv16, x: bv16): bv16 {
    c ^ x
  }

  function Shift(c: bv16): bv16 {
    if Odd(c) then Load(Half(c), POLYNOMIAL) else Half(c)
  }

  function Shifts(c: bv16, n: nat): bv16
    decreases n
  {
    if n == 0 then c else Shifts(Shift(c), n - 1)
  }

  function Bit(b: bool): bv16 {
    if b then 1 else 0
  }

  /** The register after a sequence of bits. */
  function Register(c: bv16, s: bits): bv16
    decreases |s|
  {
    if s == [] then c else Register(Shift(Load(c, Bit(s[0]))), s[1..])
  }

  function Bits8(b: bv8): (r: bits)
    ensures |r| == 8
  {
    [b & 0x01 != 0, b & 0x02 != 0, b & 0x04 != 0, b & 0x08 != 0, b & 0x10 != 0, b & 0x20 != 0, b & 0x40 != 0, b & 0x80 != 0]
  }

  function MessageBits(m: seq<bv8>): (r: bits)
    ensures |r| == 8 * |m|
  {
    if m == [] then [] else Bits8(m[0]) + MessageBits(m[1..])
  }

  // ---------------------------------------------------------------- the algorithm

  function TakeByte(c: bv16, b: bv8): bv16 {
    Shifts(Load(c, b as bv16), 8)
  }

  function CrcFrom(c: bv16, m: seq<bv8>): bv16
    decreases |m|
  {
    if m == [] then c else CrcFrom(TakeByte(c, m[0]), m[1..])
  }

  function Crc(m: seq<bv8>): bv16 {
    CrcFrom(INITIAL, m)
  }

  method GetCrc(buf: array<bv8>, n: nat) returns (crc: bv16)
    requires n <= buf.Length
    ensures crc == Crc(buf[..n])
  {
    hide Shifts, Load;
    crc := INITIAL;
    for i := 0 to n
      invariant CrcFrom(crc, buf[i..n]) == Crc(buf[..n])
    {
      assert buf[i..n][1..] == buf[i + 1..n];
      crc := EightShifts(Load(crc, buf[i] as bv16));
    }
  }

  method EightShifts(start: bv16) returns (crc: bv16)
    ensures crc == Shifts(start, 8)
  {
    crc := start;
    for j := 0 to 8
      invariant Shifts(crc, 8 - j) == Shifts(start, 8)
    {
      var carryFlag := crc & 1;
      crc := crc >> 1;
      if carryFlag == 1 {
        crc := crc ^ POLYNOMIAL;
      }
    }
  }

  // ---------------------------------------------------------------- bytes against bits

  /** `b` in front of the lowest bit of `x`. */
  function Push(x: bv16, b: bool): bv16 {
    (x << 1) | Bit(b)
  }

  /** Up to 16 bits as a number, the first one lowest. */
  function Pack(s: bits): bv16 {
    if s == [] then 0 else Push(Pack(s[1..]), s[0])
  }

  /** The `n` low bits. */
  function Mask(n: nat): bv16
    decreases n
  {
    if n == 0 then 0 else Push(Mask(n - 1), true)
  }

  predicate Within(x: bv16, mask: bv16) {
    x & mask == x
  }

  lemma PushWithin(x: bv16, b: bool, mask: bv16)
    requires Within(x, mask)
    ensures Within(Push(x, b), Push(mask, true))
  {
  }

  lemma {:induction false} PackFits(s: bits, n: nat)
    requires |s| <= n
    ensures Within(Pack(s), Mask(n))
    decreases |s|
  {
    if s == [] {
      assert Within(0, Mask(n));
    } else {
      hide Push, Within, Bit;
      PackFits(s[1..], n - 1);
      PushWithin(Pack(s[1..]), s[0], Mask(n - 1));
    }
  }

  predicate TopClear(x: bv16) {
    x & 0x8000 == 0
  }

  lemma WithinMask15(x: bv16)
    requires Within(x, Mask(15))
    ensures TopClear(x)
  {
    assert Mask(5) == 0x1F;
    assert Mask(10) == 0x3FF;
    assert Mask(15) == 0x7FFF;
  }

  /** A bit pushed below a value whose top bit is clear enters alone when the register shifts. */
  lemma ShiftOfPush(c: bv16, b: bool, y: bv16)
    requires TopClear(y)
    ensures Shift(Load(c, Push(y, b))) == Load(Shift(Load(c, Bit(b))), y)
  {
    hide Shift, Load, Push, Bit, TopClear, Odd, Half;
    LowBit(c, y, b);
    HighBits(c, y, b);
    ShiftLoaded(Load(c, Push(y, b)), Load(c, Bit(b)), y);
  }

  lemma ShiftLoaded(x: bv16, z: bv16, y: bv16)
    requires Odd(x) == Odd(z) && Half(x) == Load(Half(z), y)
    ensures Shift(x) == Load(Shift(z), y)
  {
  }

  lemma LowBit(c: bv16, y: bv16, b: bool)
    ensures Odd(Load(c, Push(y, b))) == Odd(Load(c, Bit(b)))
  {
  }

  lemma HighBits(c: bv16, y: bv16, b: bool)
    requires TopClear(y)
    ensures Half(Load(c, Push(y, b))) == Load(Half(Load(c, Bit(b))), y)
  {
  }

  lemma LoadNothing(c: bv16)
    ensures Load(c, 0) == c
  {
  }

  /** Feeding up to 16 bits one by one is loading them at once and shifting. */
  lemma {:induction false} RegisterIsShifts(c: bv16, s: bits)
    requires |s| <= 16
    ensures Register(c, s) == Shifts(Load(c, Pack(s)), |s|)
    decreases |s|
  {
    hide Shift, Bit, Push, Within, Load, TopClear, Mask;
    if s == [] {
      LoadNothing(c);
    } else {
      PackFits(s[1..], 15);
      WithinMask15(Pack(s[1..]));
      ShiftOfPush(c, s[0], Pack(s[1..]));
      RegisterIsShifts(Shift(Load(c, Bit(s[0]))), s[1..]);
    }
  }

  lemma PackOfByte(b: bv8)
    ensures Pack(Bits8(b)) == b as bv16
  {
    hide Pack, PackEight;
    PackIsEight(Bits8(b));
    EightOfByte(b);
  }

  function PackEight(b0: bool, b1: bool, b2: bool, b3: bool, b4: bool, b5: bool, b6: bool, b7: bool): bv16 {
    Push(Push(Push(Push(Push(Push(Push(Push(0, b7), b6), b5), b4), b3), b2), b1), b0)
  }

  lemma PackIsEight(s: bits)
    requires |s| == 8
    ensures Pack(s) == PackEight(s[0], s[1], s[2], s[3], s[4], s[5], s[6], s[7])
  {
    hide Push;
    PackStep(s, 0);
    PackStep(s, 1);
    PackStep(s, 2);
    PackStep(s, 3);
    PackStep(s, 4);
    PackStep(s, 5);
    PackStep(s, 6);
    PackStep(s, 7);
    assert s[0..] == s && s[8..] == [];
  }

  lemma PackStep(s: bits, i: nat)
    requires i < |s|
    ensures Pack(s[i..]) == Push(Pack(s[i + 1..]), s[i])
  {
    hide Push;
    assert s[i..][1..] == s[i + 1..];
  }

  lemma EightOfByte(b: bv8)
    ensures PackEight(b & 0x01 != 0, b & 0x02 != 0, b & 0x04 != 0, b & 0x08 != 0,
                      b & 0x10 != 0, b & 0x20 != 0, b & 0x40 != 0, b & 0x80 != 0) == b as bv16
  {
  }

  lemma {:induction false} RegisterConcat(c: bv16, s: bits, t: bits)
    ensures Register(c, s + t) == Register(Register(c, s), t)
    decreases |s|
  {
    hide Shift, Load, Bit;
    if s == [] {
      assert s + t == t;
    } else {
      assert (s + t)[1..] == s[1..] + t;
      RegisterConcat(Shift(Load(c, Bit(s[0]))), s[1..], t);
    }
  }

  lemma ByteIsRegister(c: bv16, b: bv8)
    ensures TakeByte(c, b) == Register(c, Bits8(b))
  {
    hide Shifts, Load, Bits8, Pack, Register;
    PackOfByte(b);
    RegisterIsShifts(c, Bits8(b));
  }

  lemma EmptyRegister(c: bv16)
    ensures Register(c, []) == c
  {
  }

  /** The byte-wise algorithm computes what the register holds after the bits of the message. */
  lemma {:induction false} CrcIsRegister(c: bv16, m: seq<bv8>)
    ensures CrcFrom(c, m) == Register(c, MessageBits(m))
    decreases |m|
  {
    hide TakeByte, Bits8, Register;
    if m == [] {
      EmptyRegister(c);
    } else {
      var c1 := TakeByte(c, m[0]);
      ByteIsRegister(c, m[0]);
      RegisterConcat(c, Bits8(m[0]), MessageBits(m[1..]));
      CrcIsRegister(c1, m[1..]);
    }
  }

  // ---------------------------------------------------------------- injectivity

  lemma ShiftInjective(a: bv16, b: bv16)
    requires Shift(a) == Shift(b)
    ensures a == b
  {
  }

  lemma LoadInjective(a: bv16, b: bv16, x: bv16)
    requires Load(a, x) == Load(b, x) || Load(x, a) == Load(x, b)
    ensures a == b
  {
  }

  lemma {:induction false} ShiftsInjective(a: bv16, b: bv16, n: nat)
    requires Shifts(a, n) == Shifts(b, n)
    ensures a == b
    decreases n
  {
    hide Shift;
    if n > 0 {
      ShiftsInjective(Shift(a), Shift(b), n - 1);
      ShiftInjective(a, b);
    }
  }

  lemma {:induction false} RegisterInjective(a: bv16, b: bv16, s: bits)
    requires Register(a, s) == Register(b, s)
    ensures a == b
    decreases |s|
  {
    hide Shift, Load, Bit;
    if s != [] {
      var x := Bit(s[0]);
      RegisterInjective(Shift(Load(a, x)), Shift(Load(b, x)), s[1..]);
      ShiftInjective(Load(a, x), Load(b, x));
      LoadInjective(a, b, x);
    }
  }

  lemma PushInjective(x: bv16, b: bool, x': bv16, b': bool)
    requires TopClear(x) && TopClear(x') && Push(x, b) == Push(x', b')
    ensures x == x' && b == b'
  {
  }

  lemma {:induction false} PackInjective(s: bits, t: bits)
    requires |s| == |t| <= 16 && Pack(s) == Pack(t)
    ensures s == t
    decreases |s|
  {
    if s != [] {
      hide Push, TopClear, Mask, Within;
      PackFits(s[1..], 15);
      PackFits(t[1..], 15);
      WithinMask15(Pack(s[1..]));
      WithinMask15(Pack(t[1..]));
      PushInjective(Pack(s[1..]), s[0], Pack(t[1..]), t[0]);
      PackInjective(s[1..], t[1..]);
      assert s == [s[0]] + s[1..] && t == [t[0]] + t[1..];
    }
  }

  lemma LoadZero(x: bv16, y: bv16)
    ensures Load(x, y) == 0 <==> x == y
  {
  }

  // ---------------------------------------------------------------- powers of x

  /** The register that stands for the polynomial 1, in the reflected order of bits. */
  const ONE: bv16 := 0x8000

  function Power(n: nat): bv16 {
    Shifts(ONE, n)
  }

  lemma {:induction false} ShiftsAdd(c: bv16, n: nat, k: nat)
    ensures Shifts(c, n + k) == Shifts(Shifts(c, n), k)
    decreases n
  {
    hide Shift;
    if n > 0 {
      ShiftsAdd(Shift(c), n - 1, k);
    }
  }

  lemma LoadParts(a: bv16, b: bv16)
    ensures Odd(Load(a, b)) == (Odd(a) != Odd(b)) && Half(Load(a, b)) == Load(Half(a), Half(b))
  {
  }

  lemma LoadCommutes(a: bv16, b: bv16)
    ensures Load(a, b) == Load(b, a)
  {
  }

  lemma LoadRegroups(x: bv16, y: bv16, p: bv16)
    ensures Load(Load(x, y), p) == Load(Load(x, p), y) == Load(x, Load(y, p))
    ensures Load(Load(x, p), Load(y, p)) == Load(x, y)
  {
  }

  lemma ShiftLinear(a: bv16, b: bv16)
    ensures Shift(Load(a, b)) == Load(Shift(a), Shift(b))
  {
    LoadParts(a, b);
    LoadRegroups(Half(a), Half(b), POLYNOMIAL);
    hide Load, Half, Odd;
  }

  lemma ShiftZero()
    ensures Shift(0) == 0
  {
  }

  predicate Top(a: bv16) {
    a & 0x8000 != 0
  }

  function Double(a: bv16): bv16 {
    a << 1
  }

  /** One step of Horner's rule, with the highest coefficient of `a`. */
  function Horner(acc: bv16, a: bv16, b: bv16): bv16 {
    Load(Shift(acc), if Top(a) then b else 0)
  }

  /** The product of the polynomial in the `n` high bits of `a` with `b`. */
  function Product(a: bv16, b: bv16, n: nat): bv16
    decreases n
  {
    if n == 0 then 0 else Horner(Product(Double(a), b, n - 1), a, b)
  }

  function Times(a: bv16, b: bv16): bv16 {
    Product(a, b, 16)
  }

  lemma HornerShift(acc: bv16, a: bv16, b: bv16)
    ensures Horner(Shift(acc), a, Shift(b)) == Shift(Horner(acc, a, b))
  {
    hide Shift, Load, Top;
    ShiftLinear(Shift(acc), if Top(a) then b else 0);
    ShiftZero();
  }

  lemma {:induction false} ProductShift(a: bv16, b: bv16, n: nat)
    ensures Product(a, Shift(b), n) == Shift(Product(a, b, n))
    decreases n
  {
    hide Shift, Horner, Double;
    ShiftZero();
    if n > 0 {
      ProductShift(Double(a), b, n - 1);
      HornerShift(Product(Double(a), b, n - 1), a, b);
    }
  }

  /** The `n` high bits. */
  function HighMask(n: nat): bv16
    decreases n
  {
    if n == 0 then 0 else Load(Half(HighMask(n - 1)), ONE)
  }

  lemma HighMasks()
    ensures HighMask(15) == 0xFFFE && HighMask(16) == 0xFFFF
  {
    assert HighMask(5) == 0xF800;
    assert HighMask(10) == 0xFFC0;
  }

  lemma HalfWithin(x: bv16, y: bv16)
    requires Within(x, y)
    ensures Within(Load(Half(x), ONE), Load(Half(y), ONE))
  {
  }

  lemma {:induction false} HighMaskGrows(n: nat)
    ensures Within(HighMask(n), HighMask(n + 1))
    decreases n
  {
    if n > 0 {
      HighMaskGrows(n - 1);
      HalfWithin(HighMask(n - 1), HighMask(n));
    } else {
      assert Within(0, HighMask(1));
    }
  }

  lemma EvenWithin(x: bv16, y: bv16)
    requires Within(x, y) && !Odd(y)
    ensures !Odd(x)
  {
  }

  lemma {:induction false} HighMaskEven(n: nat)
    requires n <= 15
    ensures !Odd(HighMask(n))
    decreases 15 - n
  {
    hide HighMask;
    if n == 15 {
      HighMasks();
    } else {
      HighMaskEven(n + 1);
      HighMaskGrows(n);
      EvenWithin(HighMask(n), HighMask(n + 1));
    }
  }

  lemma DoubleEven(a: bv16, mask: bv16)
    requires !Odd(mask)
    ensures !Odd(Double(a) & mask)
  {
  }

  lemma TopSet(a: bv16, mask: bv16)
    requires Top(a)
    ensures Load(Half(Double(a) & mask), ONE) == a & Load(Half(mask), ONE)
  {
  }

  lemma TopNotSet(a: bv16, mask: bv16)
    requires !Top(a)
    ensures Load(Half(Double(a) & mask), 0) == a & Load(Half(mask), ONE)
  {
  }

  lemma HornerOne(a: bv16, mask: bv16)
    requires !Odd(mask)
    ensures Horner(Double(a) & mask, a, ONE) == a & Load(Half(mask), ONE)
  {
    DoubleEven(a, mask);
    if Top(a) {
      TopSet(a, mask);
    } else {
      TopNotSet(a, mask);
    }
    hide Load, Half, Double, Top, Odd;
  }

  lemma {:induction false} ProductOne(a: bv16, n: nat)
    requires n <= 16
    ensures Product(a, ONE, n) == a & HighMask(n)
    decreases n
  {
    hide Horner, Load, Half, Double;
    if n == 0 {
      assert a & 0 == 0;
    } else {
      ProductOne(Double(a), n - 1);
      HighMaskEven(n - 1);
      HornerOne(a, HighMask(n - 1));
    }
  }

  /** The polynomial 1 is neutral. */
  lemma TimesOne(a: bv16)
    ensures Times(a, ONE) == a
  {
    ProductOne(a, 16);
    HighMasks();
    hide Product, HighMask;
    assert a & 0xFFFF == a;
  }

  /** Multiplying with a power of x is shifting. */
  lemma {:induction false} TimesPower(a: bv16, m: nat)
    ensures Times(a, Power(m)) == Shifts(a, m)
    decreases m
  {
    hide Shift, Product;
    if m == 0 {
      TimesOne(a);
    } else {
      TimesPower(a, m - 1);
      ShiftsAdd(ONE, m - 1, 1);
      ShiftsAdd(a, m - 1, 1);
      ProductShift(a, Power(m - 1), 16);
      OneShift(Power(m - 1));
      OneShift(Shifts(a, m - 1));
    }
  }

  lemma OneShift(c: bv16)
    ensures Shifts(c, 1) == Shift(c)
  {
    assert Shifts(Shift(c), 0) == Shift(c);
  }

  // ---------------------------------------------------------------- repeated squaring

  function Four(a: bv16): bv16 {
    Double(Double(Double(Double(a))))
  }

  function FourSteps(acc: bv16, a: bv16, b: bv16): bv16 {
    Horner(Horner(Horner(Horner(acc, Double(Double(Double(a))), b), Double(Double(a)), b), Double(a), b), a, b)
  }

  lemma ProductFour(a: bv16, b: bv16, n: nat)
    ensures Product(a, b, n + 4) == FourSteps(Product(Four(a), b, n), a, b)
  {
    hide Horner, Double;
    assert Product(a, b, n + 4) == Horner(Product(Double(a), b, n + 3), a, b);
    assert Product(Double(a), b, n + 3) == Horner(Product(Double(Double(a)), b, n + 2), Double(a), b);
  }

  /** The product without recursion. */
  function Unrolled(a: bv16, b: bv16): bv16 {
    FourSteps(FourSteps(FourSteps(FourSteps(0, Four(Four(Four(a))), b), Four(Four(a)), b), Four(a), b), a, b)
  }

  lemma TimesIsUnrolled(a: bv16, b: bv16)
    ensures Times(a, b) == Unrolled(a, b)
  {
    ProductFour(a, b, 12);
    ProductFour(Four(a), b, 8);
    ProductFour(Four(Four(a)), b, 4);
    ProductFour(Four(Four(Four(a))), b, 0);
    hide FourSteps, Four;
  }

  /** One step of repeated squaring. */
  function Next(p: bv16, odd: bool): bv16 {
    if odd then Shift(Unrolled(p, p)) else Unrolled(p, p)
  }

  lemma PowerNext(n: nat, odd: bool)
    ensures Power(if odd then 2 * n + 1 else 2 * n) == Next(Power(n), odd)
  {
    hide Shift, Times, Shifts, Unrolled;
    TimesPower(Power(n), n);
    TimesIsUnrolled(Power(n), Power(n));
    ShiftsAdd(ONE, n, n);
    ShiftsAdd(ONE, n + n, 1);
    OneShift(Power(n + n));
  }

  /** Fifteen steps push the bit through the register. */
  lemma FirstPowers()
    ensures Power(8) == 0x0080 && Power(9) == 0x0040 && Power(13) == 0x0004 && Power(15) == 0x0001
  {
    FourPowers(0x8000, 0x4000, 0x2000, 0x1000, 0x0800);
    FourPowers(0x0800, 0x0400, 0x0200, 0x0100, 0x0080);
    FourPowers(0x0080, 0x0040, 0x0020, 0x0010, 0x0008);
    FourPowers(0x0040, 0x0020, 0x0010, 0x0008, 0x0004);
    FourPowers(0x0010, 0x0008, 0x0004, 0x0002, 0x0001);
    hide Shifts;
    ShiftsAdd(ONE, 4, 4);
    ShiftsAdd(ONE, 8, 1);
    ShiftsAdd(ONE, 9, 4);
    ShiftsAdd(ONE, 8, 3);
    ShiftsAdd(ONE, 11, 4);
  }

  lemma FourPowers(a: bv16, b: bv16, c: bv16, d: bv16, e: bv16)
    requires Shift(a) == b && Shift(b) == c && Shift(c) == d && Shift(d) == e
    ensures Shifts(a, 1) == b && Shifts(a, 2) == c && Shifts(a, 3) == d && Shifts(a, 4) == e
  {
    hide Shift;
    assert Shifts(d, 1) == e && Shifts(c, 2) == e && Shifts(b, 3) == e;
    assert Shifts(c, 1) == d && Shifts(b, 2) == d;
    assert Shifts(b, 1) == c;
  }

  lemma Powers54()
    ensures Power(54) == 0xC079
  {
    FirstPowers();
    PowerNext(13, true);
    PowerNext(27, false);
    hide Power;
    assert Next(0x0004, true) == 0xC00D;
    assert Next(0xC00D, false) == 0xC079;
  }

  lemma Powers217()
    ensures Power(217) == 0x3E55
  {
    Powers54();
    PowerNext(54, false);
    PowerNext(108, true);
    hide Power;
    assert Next(0xC079, false) == 0xDFE1;
    assert Next(0xDFE1, true) == 0x3E55;
  }

  lemma Powers33()
    ensures Power(33) == 0xD401
  {
    FirstPowers();
    PowerNext(8, false);
    PowerNext(16, true);
    hide Power;
    assert Next(0x0080, false) == 0xA001;
    assert Next(0xA001, true) == 0xD401;
  }

  lemma Powers132()
    ensures Power(132) == 0x0608
  {
    Powers33();
    PowerNext(33, false);
    PowerNext(66, false);
    hide Power;
    assert Next(0xD401, false) == 0xC221;
    assert Next(0xC221, false) == 0x0608;
  }

  lemma Powers528()
    ensures Power(528) == 0xD861
  {
    Powers132();
    PowerNext(132, false);
    PowerNext(264, false);
    hide Power;
    assert Next(0x0608, false) == 0xC049;
    assert Next(0xC049, false) == 0xD861;
  }

  lemma Powers1057()
    ensures Power(1057) == 0xCE41
  {
    Powers528();
    PowerNext(528, true);
    hide Power;
    assert Next(0xD861, true) == 0xCE41;
  }

  lemma Powers36()
    ensures Power(36) == 0xC281
  {
    FirstPowers();
    PowerNext(9, false);
    PowerNext(18, false);
    hide Power;
    assert Next(0x0040, false) == 0xD801;
    assert Next(0xD801, false) == 0xC281;
  }

  lemma Powers146()
    ensures Power(146) == 0xCA19
  {
    Powers36();
    PowerNext(36, true);
    PowerNext(73, false);
    hide Power;
    assert Next(0xC281, true) == 0x3004;
    assert Next(0x3004, false) == 0xCA19;
  }

  lemma Powers585()
    ensures Power(585) == 0x0F31
  {
    Powers146();
    PowerNext(146, false);
    PowerNext(292, true);
    hide Power;
    assert Next(0xCA19, false) == 0xC169;
    assert Next(0xC169, true) == 0x0F31;
  }

  lemma Powers2340()
    ensures Power(2340) == 0x8E4C
  {
    Powers585();
    PowerNext(585, false);
    PowerNext(1170, false);
    hide Power;
    assert Next(0x0F31, false) == 0x672B;
    assert Next(0x672B, false) == 0x8E4C;
  }

  lemma Powers4681()
    ensures Power(4681) == 0x8C69
  {
    Powers2340();
    PowerNext(2340, true);
    hide Power;
    assert Next(0x8E4C, true) == 0x8C69;
  }

  lemma Powers63()
    ensures Power(63) == 0xD101
  {
    FirstPowers();
    PowerNext(15, true);
    PowerNext(31, true);
    hide Power;
    assert Next(0x0001, true) == 0x9001;
    assert Next(0x9001, true) == 0xD101;
  }

  lemma Powers255()
    ensures Power(255) == 0x5001
  {
    Powers63();
    PowerNext(63, true);
    PowerNext(127, true);
    hide Power;
    assert Next(0xD101, true) == 0xC100;
    assert Next(0xC100, true) == 0x5001;
  }

  lemma Powers1023()
    ensures Power(1023) == 0xD000
  {
    Powers255();
    PowerNext(255, true);
    PowerNext(511, true);
    hide Power;
    assert Next(0x5001, true) == 0x8101;
    assert Next(0x8101, true) == 0xD000;
  }

  lemma Powers4095()
    ensures Power(4095) == 0x1101
  {
    Powers1023();
    PowerNext(1023, true);
    PowerNext(2047, true);
    hide Power;
    assert Next(0xD000, true) == 0x5100;
    assert Next(0x5100, true) == 0x1101;
  }

  lemma Powers16383()
    ensures Power(16383) == 0x4101
  {
    Powers4095();
    PowerNext(4095, true);
    PowerNext(8191, true);
    hide Power;
    assert Next(0x1101, true) == 0x9100;
    assert Next(0x9100, true) == 0x4101;
  }

  lemma Powers32767()
    ensures Power(32767) == 0x8000
  {
    Powers16383();
    PowerNext(16383, true);
    hide Power;
    assert Next(0x4101, true) == 0x8000;
  }
}
