/** Which transmission errors the checksum of serial frames detects, and the residue of whole frames. */
module CrcErrors {
  import opened Crcs

  // ---------------------------------------------------------------- detection of errors

  /** An error burst of at most 16 bits, anywhere in a message of any length, changes the register. */
  lemma BurstChangesRegister(c: bv16, before: bits, u: bits, v: bits, after: bits)
    requires |u| == |v| <= 16
    ensures Register(c, before + u + after) == Register(c, before + v + after) <==> u == v
  {
    hide Register, Shifts, Pack, Load;
    var c0 := Register(c, before);
    RegisterConcat(c, before, u);
    RegisterConcat(c, before, v);
    RegisterConcat(c, before + u, after);
    RegisterConcat(c, before + v, after);
    if Register(c, before + u + after) == Register(c, before + v + after) {
      RegisterInjective(Register(c0, u), Register(c0, v), after);
      RegisterIsShifts(c0, u);
      RegisterIsShifts(c0, v);
      ShiftsInjective(Load(c0, Pack(u)), Load(c0, Pack(v)), |u|);
      LoadInjective(Pack(u), Pack(v), c0);
      PackInjective(u, v);
    }
  }

  /** Two messages whose bits differ, but only within 16 consecutive ones, have different checksums. */
  lemma BurstDetected(m: seq<bv8>, m': seq<bv8>, i: nat, j: nat)
    requires |m| == |m'| && m != m' && i <= j <= 8 * |m| && j <= i + 16
    requires MessageBits(m)[..i] == MessageBits(m')[..i] && MessageBits(m)[j..] == MessageBits(m')[j..]
    ensures Crc(m) != Crc(m')
  {
    hide MessageBits, Register, CrcFrom;
    var a, b := MessageBits(m), MessageBits(m');
    if a == b {
      BitsInjective(m, m');
    }
    CrcIsRegister(INITIAL, m);
    CrcIsRegister(INITIAL, m');
    assert a == a[..i] + a[i..j] + a[j..];
    assert b == b[..i] + b[i..j] + b[j..];
    BurstChangesRegister(INITIAL, a[..i], a[i..j], b[i..j], a[j..]);
  }

  lemma BitsOfBytes(x: bv8, y: bv8)
    requires Bits8(x) == Bits8(y)
    ensures x == y
  {
    hide Bits8, Pack;
    PackOfByte(x);
    PackOfByte(y);
    Widen(x, y);
  }

  lemma Widen(x: bv8, y: bv8)
    requires x as bv16 == y as bv16
    ensures x == y
  {
  }

  lemma {:induction false} BitsInjective(m: seq<bv8>, m': seq<bv8>)
    requires |m| == |m'| && MessageBits(m) == MessageBits(m')
    ensures m == m'
    decreases |m|
  {
    hide Bits8;
    if m != [] {
      var a, b := MessageBits(m), MessageBits(m');
      assert a[..8] == Bits8(m[0]) && a[8..] == MessageBits(m[1..]);
      assert b[..8] == Bits8(m'[0]) && b[8..] == MessageBits(m'[1..]);
      BitsOfBytes(m[0], m'[0]);
      BitsInjective(m[1..], m'[1..]);
      assert m == [m[0]] + m[1..] && m' == [m'[0]] + m'[1..];
    }
  }

  lemma {:induction false} BitsConcat(m: seq<bv8>, t: seq<bv8>)
    ensures MessageBits(m + t) == MessageBits(m) + MessageBits(t)
    decreases |m|
  {
    hide Bits8;
    if m == [] {
      assert m + t == t;
    } else {
      assert (m + t)[1..] == m[1..] + t;
      BitsConcat(m[1..], t);
    }
  }

  /** Two messages that differ only within two adjacent bytes have different checksums. */
  lemma TwoBytesDetected(before: seq<bv8>, x: bv8, y: bv8, x': bv8, y': bv8, after: seq<bv8>)
    ensures Crc(before + [x, y] + after) == Crc(before + [x', y'] + after) <==> x == x' && y == y'
  {
    hide MessageBits, CrcFrom;
    var m, m' := before + [x, y] + after, before + [x', y'] + after;
    if x != x' || y != y' {
      assert m[|before|] == x && m[|before| + 1] == y && m'[|before|] == x' && m'[|before| + 1] == y';
      BitsConcat(before, [x, y]);
      BitsConcat(before, [x', y']);
      BitsConcat(before + [x, y], after);
      BitsConcat(before + [x', y'], after);
      BurstDetected(m, m', 8 * |before|, 8 * |before| + 16);
    }
  }

  // ---------------------------------------------------------------- errors in an odd number of bits

  /** The parity of the `n` low bits of the register. */
  function ParityOf(c: bv16, n: nat): bool
    decreases n
  {
    if n == 0 then false else Odd(c) != ParityOf(Half(c), n - 1)
  }

  function Parity(c: bv16): bool {
    ParityOf(c, 16)
  }

  predicate OddOnes(s: bits) {
    s != [] && s[0] != OddOnes(s[1..])
  }

  function Differences(s: bits, t: bits): nat
    requires |s| == |t|
  {
    if s == [] then 0 else (if s[0] != t[0] then 1 else 0) + Differences(s[1..], t[1..])
  }

  lemma LoadBits(x: bv16, y: bv16)
    ensures Odd(Load(x, y)) == (Odd(x) != Odd(y)) && Half(Load(x, y)) == Load(Half(x), Half(y))
  {
  }

  lemma {:induction false} ParityIsLinear(x: bv16, y: bv16, n: nat)
    ensures ParityOf(Load(x, y), n) == (ParityOf(x, n) != ParityOf(y, n))
    decreases n
  {
    hide Load, Half, Odd;
    if n > 0 {
      LoadBits(x, y);
      ParityIsLinear(Half(x), Half(y), n - 1);
    }
  }

  function Halves(c: bv16, n: nat): bv16
    decreases n
  {
    if n == 0 then c else Halves(Half(c), n - 1)
  }

  lemma {:induction false} ParityMore(c: bv16, n: nat)
    ensures ParityOf(c, n + 1) == (ParityOf(c, n) != Odd(Halves(c, n)))
    decreases n
  {
    hide Half, Odd;
    if n == 0 {
      assert ParityOf(Half(c), 0) == false;
    } else {
      ParityMore(Half(c), n - 1);
    }
  }

  lemma HalvedAway(c: bv16)
    ensures Halves(c, 16) == 0
  {
    FourHalves(c, 12);
    FourHalves(c >> 4, 8);
    FourHalves(c >> 8, 4);
    FourHalves(c >> 12, 0);
  }

  lemma FourHalves(c: bv16, n: nat)
    ensures Halves(c, n + 4) == Halves(c >> 4, n)
  {
    hide Half;
    var c1 := Half(c);
    var c2 := Half(c1);
    var c3 := Half(c2);
    assert Halves(c, n + 4) == Halves(c1, n + 3) == Halves(c2, n + 2) == Halves(c3, n + 1) == Halves(Half(c3), n);
    HalfFour(c);
  }

  lemma HalfFour(c: bv16)
    ensures Half(Half(Half(Half(c)))) == c >> 4
  {
  }

  lemma PolynomialParity()
    ensures Parity(POLYNOMIAL) && ParityOf(1, 16) && !ParityOf(0, 16)
  {
    assert ParityOf(0, 8) == false;
    assert ParityOf(0xA0, 8) == false;
  }

  lemma HalfParity(c: bv16)
    ensures Parity(Half(c)) == (Parity(c) != Odd(c))
  {
    hide Half, Odd;
    ParityMore(Half(c), 15);
    HalvedAway(c);
    assert Halves(c, 16) == Halves(Half(c), 15);
    ZeroIsEven();
  }

  lemma ZeroIsEven()
    ensures !Odd(0)
  {
  }

  lemma ShiftKeepsParity(c: bv16)
    ensures Parity(Shift(c)) == Parity(c)
  {
    hide Half, Load, Odd, ParityOf;
    HalfParity(c);
    PolynomialParity();
    ParityIsLinear(Half(c), POLYNOMIAL, 16);
  }

  lemma LoadParity(c: bv16, b: bool)
    ensures Parity(Load(c, Bit(b))) == (Parity(c) != b)
  {
    hide Load, ParityOf;
    PolynomialParity();
    ParityIsLinear(c, Bit(b), 16);
  }

  lemma {:induction false} RegisterParity(c: bv16, s: bits)
    ensures Parity(Register(c, s)) == (Parity(c) != OddOnes(s))
    decreases |s|
  {
    hide Parity, Shift, Load, Bit;
    if s != [] {
      var c1 := Shift(Load(c, Bit(s[0])));
      LoadParity(c, s[0]);
      ShiftKeepsParity(Load(c, Bit(s[0])));
      RegisterParity(c1, s[1..]);
    }
  }

  lemma {:induction false} DifferencesParity(s: bits, t: bits)
    requires |s| == |t|
    ensures Differences(s, t) % 2 == 1 <==> OddOnes(s) != OddOnes(t)
  {
    if s != [] {
      DifferencesParity(s[1..], t[1..]);
    }
  }

  /** The checksum has the parity of the message, so errors in an odd number of bits never go unnoticed. */
  lemma OddErrorsDetected(m: seq<bv8>, m': seq<bv8>)
    requires |m| == |m'| && Differences(MessageBits(m), MessageBits(m')) % 2 == 1
    ensures Crc(m) != Crc(m')
  {
    hide MessageBits, Register, CrcFrom, Parity;
    CrcIsRegister(INITIAL, m);
    CrcIsRegister(INITIAL, m');
    RegisterParity(INITIAL, MessageBits(m));
    RegisterParity(INITIAL, MessageBits(m'));
    DifferencesParity(MessageBits(m), MessageBits(m'));
  }

  // ---------------------------------------------------------------- the residue

  function Low(c: bv16): bv8 {
    (c & 0xFF) as bv8
  }

  function High(c: bv16): bv8 {
    (c >> 8) as bv8
  }

  /** A message as it is sent: the checksum behind it, low byte first. */
  function Frame(m: seq<bv8>): seq<bv8> {
    m + [Low(Crc(m)), High(Crc(m))]
  }

  lemma EvenShifts(hi: bv16)
    requires hi <= 0xFF
    ensures Shift(hi << 8) == hi << 7 && Shift(hi << 7) == hi << 6 && Shift(hi << 6) == hi << 5 && Shift(hi << 5) == hi << 4
    ensures Shift(hi << 4) == hi << 3 && Shift(hi << 3) == hi << 2 && Shift(hi << 2) == hi << 1 && Shift(hi << 1) == hi
  {
  }

  /** A high byte passes unchanged through eight shifts. */
  lemma HighPasses(hi: bv16)
    requires hi <= 0xFF
    ensures Shifts(hi << 8, 8) == hi
  {
    EvenShifts(hi);
    hide Shift;
    assert Shifts(hi << 8, 8) == Shifts(hi << 7, 7) == Shifts(hi << 6, 6) == Shifts(hi << 5, 5) == Shifts(hi << 4, 4);
    assert Shifts(hi << 4, 4) == Shifts(hi << 3, 3) == Shifts(hi << 2, 2) == Shifts(hi << 1, 1) == Shifts(hi, 0);
  }

  lemma {:induction false} CrcFromTwo(c: bv16, m: seq<bv8>, lo: bv8, hi: bv8)
    ensures CrcFrom(c, m + [lo, hi]) == TakeByte(TakeByte(CrcFrom(c, m), lo), hi)
    decreases |m|
  {
    hide TakeByte;
    if m == [] {
      assert m + [lo, hi] == [lo, hi] && [lo, hi][1..] == [hi] && [hi][1..] == [];
      assert CrcFrom(TakeByte(c, lo), [hi]) == TakeByte(TakeByte(c, lo), hi);
    } else {
      assert (m + [lo, hi])[1..] == m[1..] + [lo, hi];
      CrcFromTwo(TakeByte(c, m[0]), m[1..], lo, hi);
    }
  }

  lemma ZeroShifts(n: nat)
    ensures Shifts(0, n) == 0
  {
  }

  lemma HighAndLow(c: bv16, lo: bv8, hi: bv8)
    ensures Load(c, lo as bv16) == (hi as bv16) << 8 <==> lo == Low(c) && hi == High(c)
    ensures hi as bv16 <= 0xFF
  {
  }

  /** Two more bytes leave the register empty exactly when they are its low and its high byte. */
  lemma TwoBytesEmpty(c: bv16, lo: bv8, hi: bv8)
    ensures TakeByte(TakeByte(c, lo), hi) == 0 <==> lo == Low(c) && hi == High(c)
  {
    hide Shifts, Load, Low, High;
    var l, h := lo as bv16, hi as bv16;
    HighAndLow(c, lo, hi);
    HighPasses(h);
    ZeroShifts(8);
    var x := Shifts(Load(c, l), 8);
    LoadZero(x, h);
    if Shifts(Load(x, h), 8) == 0 {
      ShiftsInjective(Load(x, h), 0, 8);
    }
    if x == h {
      ShiftsInjective(Load(c, l), h << 8, 8);
    }
  }

  /** A received frame has checksum 0 exactly when its last two bytes are the checksum of the rest. */
  lemma ResidueIff(m: seq<bv8>, lo: bv8, hi: bv8)
    ensures Crc(m + [lo, hi]) == 0 <==> lo == Low(Crc(m)) && hi == High(Crc(m))
  {
    hide CrcFrom, TakeByte, Low, High;
    CrcFromTwo(INITIAL, m, lo, hi);
    TwoBytesEmpty(CrcFrom(INITIAL, m), lo, hi);
  }

  /** In particular every frame that is sent has checksum 0. */
  lemma FrameResidue(m: seq<bv8>)
    ensures Crc(Frame(m)) == 0
  {
    hide Crc, Low, High;
    ResidueIff(m, Low(Crc(m)), High(Crc(m)));
  }

  // ---------------------------------------------------------------- the start value

  function Inverted(s: bits): (r: bits)
    ensures |r| == |s|
  {
    if s == [] then [] else [!s[0]] + Inverted(s[1..])
  }

  lemma PushOne(x: bv16, mask: bv16)
    ensures Push(Load(x, mask), true) == Load(Push(x, false), Push(mask, true))
  {
  }

  lemma PushZero(x: bv16, mask: bv16)
    ensures Push(Load(x, mask), false) == Load(Push(x, true), Push(mask, true))
  {
  }

  lemma PushInverted(x: bv16, mask: bv16, b: bool)
    ensures Push(Load(x, mask), !b) == Load(Push(x, b), Push(mask, true))
  {
    hide Push, Load;
    if b {
      PushZero(x, mask);
    } else {
      PushOne(x, mask);
    }
  }

  lemma {:induction false} PackInverted(s: bits)
    ensures Pack(Inverted(s)) == Load(Pack(s), Mask(|s|))
    decreases |s|
  {
    hide Push, Load;
    if s == [] {
      LoadZero(Pack(s), Mask(0));
    } else {
      PackInverted(s[1..]);
      PushInverted(Pack(s[1..]), Mask(|s| - 1), s[0]);
      assert Inverted(s)[1..] == Inverted(s[1..]);
    }
  }

  lemma AllOnes()
    ensures Mask(16) == 0xFFFF
  {
    assert Mask(5) == 0x1F;
    assert Mask(10) == 0x3FF;
    assert Mask(15) == 0x7FFF;
  }

  /** The start value inverts the first two bytes: with them inverted, an empty register gives the checksum. */
  lemma StartInverts(m: seq<bv8>)
    requires |m| >= 2
    ensures Crc(m) == Register(0, Inverted(MessageBits(m)[..16]) + MessageBits(m)[16..])
  {
    hide MessageBits, Register, CrcFrom, Pack, Inverted, Shifts, Load;
    var s := MessageBits(m);
    var head, rest := s[..16], s[16..];
    CrcIsRegister(0xFFFF, m);
    assert s == head + rest;
    RegisterConcat(0xFFFF, head, rest);
    RegisterConcat(0, Inverted(head), rest);
    RegisterIsShifts(0xFFFF, head);
    RegisterIsShifts(0, Inverted(head));
    PackInverted(head);
    AllOnes();
    SameStart(Pack(head));
  }

  lemma SameStart(x: bv16)
    ensures Load(0xFFFF, x) == Load(0, Load(x, 0xFFFF))
  {
  }

  function EightTimes(c: bv16): bv16 {
    Shift(Shift(Shift(Shift(Shift(Shift(Shift(Shift(c))))))))
  }

  lemma EightShiftsAre(c: bv16)
    ensures Shifts(c, 8) == EightTimes(c)
  {
    hide Shift;
    var c4 := Shift(Shift(Shift(Shift(c))));
    assert Shifts(c, 8) == Shifts(Shift(c), 7) == Shifts(Shift(Shift(c)), 6) == Shifts(Shift(Shift(Shift(c))), 5) == Shifts(c4, 4);
    assert Shifts(c4, 4) == Shifts(Shift(c4), 3) == Shifts(Shift(Shift(c4)), 2) == Shifts(Shift(Shift(Shift(c4))), 1);
    assert Shifts(Shift(Shift(Shift(c4))), 1) == Shifts(Shift(Shift(Shift(Shift(c4)))), 0);
  }

  lemma TakesByte(c: bv16, b: bv8, r: bv16)
    requires EightTimes(Load(c, b as bv16)) == r
    ensures TakeByte(c, b) == r
  {
    EightShiftsAre(Load(c, b as bv16));
  }

  /** The published check value: the checksum of the nine digits 1 to 9 in ASCII. It pins the start value
      and the polynomial together. */
  lemma CheckValue()
    ensures Crc([0x31, 0x32, 0x33, 0x34, 0x35, 0x36, 0x37, 0x38, 0x39]) == 0x4B37
  {
    TakesByte(0xFFFF, 0x31, 0x947E);
    TakesByte(0x947E, 0x32, 0xF595);
    TakesByte(0xF595, 0x33, 0x7A75);
    TakesByte(0x7A75, 0x34, 0x30BA);
    TakesByte(0x30BA, 0x35, 0xA471);
    TakesByte(0xA471, 0x36, 0x32E4);
    TakesByte(0x32E4, 0x37, 0x9D73);
    TakesByte(0x9D73, 0x38, 0x37DD);
    TakesByte(0x37DD, 0x39, 0x4B37);
    hide TakeByte;
    var m: seq<bv8> := [0x31, 0x32, 0x33, 0x34, 0x35, 0x36, 0x37, 0x38, 0x39];
    var c := INITIAL;
    CrcStep(c, m);
  }

  lemma CrcStep(c: bv16, m: seq<bv8>)
    requires m != []
    ensures CrcFrom(c, m) == CrcFrom(TakeByte(c, m[0]), m[1..])
  {
  }
}
