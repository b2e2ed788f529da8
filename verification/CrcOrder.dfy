/**
 Errors in two bits: how far apart they may be is the order of the shift register, the number of steps
 after which it is back where it was.
*/
module CrcOrders {
  import opened Crcs

  /** The number of shifts after which the polynomial 1, and so every register, is back where it was. */
  const ORDER: nat := 32767

  // ---------------------------------------------------------------- the order

  /** 32767 = 7 * 31 * 151 steps lead back, and none of the three largest proper divisors does. */
  lemma PowersOfOrder()
    ensures Power(ORDER) == ONE
    ensures Power(217) != ONE && Power(1057) != ONE && Power(4681) != ONE
  {
    Powers217();
    Powers1057();
    Powers4681();
    Powers32767();
    hide Power;
  }

  lemma {:induction false} PowerMultiple(n: nat, q: nat)
    requires Power(n) == ONE
    ensures n * q >= 0 && Power(n * q) == ONE
    decreases q
  {
    hide Shifts;
    if q == 0 {
      assert n * q == 0;
      assert Shifts(ONE, 0) == ONE by { NoShift(ONE); }
    } else {
      PowerMultiple(n, q - 1);
      assert n * q == n * (q - 1) + n;
      ShiftsAdd(ONE, n * (q - 1), n);
    }
  }

  lemma NoShift(c: bv16)
    ensures Shifts(c, 0) == c
  {
  }

  lemma PowerDifference(a: nat, b: nat)
    requires a >= b && Power(a) == ONE && Power(b) == ONE
    ensures Power(a - b) == ONE
  {
    hide Shifts;
    ShiftsAdd(ONE, a - b, b);
    ShiftsInjective(Power(a - b), ONE, b);
  }

  /** Two exponents that lead back have a common divisor that does. */
  lemma {:induction false} CommonDivisor(a: nat, b: nat) returns (g: nat, x: nat, y: nat)
    requires a > 0 && b > 0 && Power(a) == ONE && Power(b) == ONE
    ensures g > 0 && Power(g) == ONE && a == g * x && b == g * y
    decreases a + b
  {
    hide Power;
    if a == b {
      g, x, y := a, 1, 1;
    } else if a > b {
      PowerDifference(a, b);
      g, x, y := CommonDivisor(a - b, b);
      assert g * (x + y) == g * x + g * y;
      x := x + y;
    } else {
      PowerDifference(b, a);
      g, x, y := CommonDivisor(a, b - a);
      assert g * (x + y) == g * x + g * y;
      y := x + y;
    }
  }

  /** The greatest common divisor, with its coefficients. */
  lemma {:induction false} Bezout(a: nat, b: nat) returns (d: nat, x: nat, y: nat, u: int, v: int)
    requires a > 0 && b > 0
    ensures d > 0 && a == d * x && b == d * y && d == a * u + b * v
    decreases a + b
  {
    if a == b {
      d, x, y, u, v := a, 1, 1, 1, 0;
    } else if a > b {
      d, x, y, u, v := Bezout(a - b, b);
      assert d * (x + y) == d * x + d * y;
      assert (a - b) * u + b * v == a * u + b * (v - u);
      x, v := x + y, v - u;
    } else {
      d, x, y, u, v := Bezout(a, b - a);
      assert d * (x + y) == d * x + d * y;
      assert a * u + (b - a) * v == a * (u - v) + b * v;
      y, u := x + y, u - v;
    }
  }

  lemma ThreePrimes(p: nat, d: nat, y: nat)
    requires p in {7, 31, 151} && p == d * y
    ensures d == 1 || d == p
  {
    if d >= 2 && y >= 2 {
      if d <= 12 {
        NoSmallFactor(p, d, y);
      } else if y <= 12 {
        NoSmallFactor(p, y, d);
      } else {
        Grows(d, y);
      }
    }
  }

  lemma Grows(d: nat, y: nat)
    requires d >= 13 && y >= 13
    ensures d * y >= 169
  {
    assert d * y >= 13 * y;
  }

  lemma NoSmallFactor(p: nat, d: nat, y: nat)
    requires p in {7, 31, 151} && 2 <= d <= 12 && y >= 2
    ensures p != d * y
  {
    assert p != 2 * y && p != 3 * y && p != 4 * y && p != 5 * y && p != 6 * y && p != 7 * y;
    assert p != 8 * y && p != 9 * y && p != 10 * y && p != 11 * y && p != 12 * y;
    assert d in {2, 3, 4, 5, 6, 7, 8, 9, 10, 11, 12};
  }

  lemma NegativeProduct(m: int, w: int)
    requires m > 0 && w < 0
    ensures m * w < 0
  {
  }

  /** A prime factor of a product belongs to one side: either `m` has the factor `p`, or it divides `q`. */
  lemma DivideOut(m: nat, k: nat, p: nat, q: nat) returns (hasFactor: bool, j: nat)
    requires m > 0 && p in {7, 31, 151} && m * k == p * q
    ensures if hasFactor then m == p * j else m * j == q
  {
    var d, x, y, u, v := Bezout(m, p);
    ThreePrimes(p, d, y);
    if d == p {
      return true, x;
    }
    var w := q * u + k * v;
    calc {
      m * w;
      m * (q * u) + m * (k * v);
      (m * q) * u + (m * k) * v;
      (m * q) * u + (p * q) * v;
      q * (m * u + p * v);
      q;
    }
    if w < 0 {
      NegativeProduct(m, w);
    }
    return false, w;
  }

  /** Fewer than 32767 steps never lead back. */
  lemma OrderIsLeast(r: nat)
    requires 0 < r < ORDER
    ensures Power(r) != ONE
  {
    hide Power;
    if Power(r) == ONE {
      PowersOfOrder();
      var g, x, m := CommonDivisor(r, ORDER);
      NotLarger(g, x);
      var by7, j := DivideOut(m, g, 7, 4681);
      if by7 {
        ProperDivisor(g, m, j, 7);
      } else {
        var by31, k := DivideOut(m, j, 31, 151);
        if by31 {
          ProperDivisor(g, m, k, 31);
        } else {
          var by151, l := DivideOut(m, k, 151, 1);
          if by151 {
            ProperDivisor(g, m, l, 151);
          } else {
            NotLarger(m, l);
          }
        }
      }
    }
  }

  lemma NotLarger(g: nat, x: nat)
    requires g * x > 0
    ensures 0 < g <= g * x && x > 0
  {
  }

  /** If a prime is missing from a divisor of 32767 that leads back, so does the quotient by it. */
  lemma ProperDivisor(g: nat, m: nat, j: nat, p: nat)
    requires Power(g) == ONE && g * m == ORDER && m == p * j && p in {7, 31, 151}
    ensures Power(ORDER / p) == ONE
  {
    hide Power;
    assert g * (p * j) == p * (g * j);
    assert g * j == ORDER / p;
    PowerMultiple(g, j);
  }

  /** Exactly the multiples of 32767 steps lead back. */
  lemma PowerIsOneIff(k: nat)
    ensures Power(k) == ONE <==> k % ORDER == 0
  {
    hide Shifts;
    PowersOfOrder();
    var q, r := k / ORDER, k % ORDER;
    PowerMultiple(ORDER, q);
    ShiftsAdd(ONE, ORDER * q, r);
    if r == 0 {
      NoShift(ONE);
    } else {
      OrderIsLeast(r);
    }
  }

  // ---------------------------------------------------------------- errors in two bits

  lemma {:induction false} RegisterDifference(a: bv16, b: bv16, s: bits)
    ensures Load(Register(a, s), Register(b, s)) == Shifts(Load(a, b), |s|)
    decreases |s|
  {
    hide Shift, Load;
    if s != [] {
      var x := Bit(s[0]);
      LoadRegroups(a, b, x);
      ShiftLinear(Load(a, x), Load(b, x));
      RegisterDifference(Shift(Load(a, x)), Shift(Load(b, x)), s[1..]);
    }
  }

  /** The bit 1 is the fifteenth power of x. */
  lemma BitIsPower(k: nat)
    ensures Shifts(1, k) == 1 <==> k % ORDER == 0
  {
    FirstPowers();
    hide Shifts;
    ShiftsAdd(ONE, 15, k);
    ShiftsAdd(ONE, k, 15);
    if Shifts(1, k) == 1 {
      ShiftsInjective(Power(k), ONE, 15);
    }
    PowerIsOneIff(k);
  }

  /** Two errors, one bit each, cancel if and only if their distance is a multiple of 32767. */
  lemma TwoBitsInRegister(c: bv16, x: bool, mid: bits, y: bool)
    ensures Register(c, [x] + mid + [y]) == Register(c, [!x] + mid + [!y]) <==> (|mid| + 1) % ORDER == 0
  {
    var a, b := Shift(Load(c, Bit(x))), Shift(Load(c, Bit(!x)));
    var a', b' := Register(a, mid), Register(b, mid);
    OneBit(c, x, mid, y);
    OneBit(c, !x, mid, !y);
    FirstDifference(c, x);
    RegisterDifference(a, b, mid);
    hide Register, Shift, Load, Bit;
    assert Load(a', b') == Shifts(1, |mid| + 1) by {
      ShiftsAdd(1, 1, |mid|);
      OneShift(1);
    }
    LastDifference(a', b', y);
    BitIsPower(|mid| + 1);
  }

  lemma OneBit(c: bv16, x: bool, mid: bits, y: bool)
    ensures Register(c, [x] + mid + [y]) == Shift(Load(Register(Shift(Load(c, Bit(x))), mid), Bit(y)))
  {
    hide Shift, Load, Bit;
    RegisterConcat(c, [x] + mid, [y]);
    RegisterConcat(c, [x], mid);
    OneBitAlone(c, x);
    OneBitAlone(Register(c, [x] + mid), y);
  }

  lemma OneBitAlone(c: bv16, x: bool)
    ensures Register(c, [x]) == Shift(Load(c, Bit(x)))
  {
    hide Shift, Load, Bit;
    assert [x][1..] == [];
  }

  lemma FirstDifference(c: bv16, x: bool)
    ensures Load(Shift(Load(c, Bit(x))), Shift(Load(c, Bit(!x)))) == Shift(1)
  {
    assert Load(Bit(x), Bit(!x)) == 1;
    hide Shift, Load, Bit;
    ShiftLinear(Load(c, Bit(x)), Load(c, Bit(!x)));
    LoadCommutes(c, Bit(x));
    LoadCommutes(c, Bit(!x));
    LoadRegroups(Bit(x), Bit(!x), c);
  }

  /** What is added on one side may be added on the other instead. */
  lemma LoadMoves(a: bv16, b: bv16, x: bv16, y: bv16)
    ensures Load(a, x) == Load(b, y) <==> Load(a, b) == Load(x, y)
  {
    hide Load;
    LoadZero(Load(a, x), Load(b, y));
    LoadZero(Load(a, b), Load(x, y));
    LoadRegroups(a, x, Load(b, y));
    LoadRegroups(b, y, x);
    LoadCommutes(x, Load(b, y));
    LoadCommutes(y, x);
    LoadRegroups(a, b, Load(x, y));
    LoadRegroups(b, x, y);
    LoadRegroups(a, Load(b, x), y);
  }

  lemma LastDifference(a: bv16, b: bv16, y: bool)
    ensures Shift(Load(a, Bit(y))) == Shift(Load(b, Bit(!y))) <==> Load(a, b) == 1
  {
    assert Load(Bit(y), Bit(!y)) == 1;
    hide Shift, Load, Bit;
    LoadMoves(a, b, Bit(y), Bit(!y));
    if Shift(Load(a, Bit(y))) == Shift(Load(b, Bit(!y))) {
      ShiftInjective(Load(a, Bit(y)), Load(b, Bit(!y)));
    }
  }

  lemma CutAt(s: bits, p: nat, q: nat, x: bool, y: bool)
    requires p < q < |s|
    ensures s[p := x][q := y] == s[..p] + ([x] + s[p + 1..q] + [y]) + s[q + 1..]
  {
  }

  lemma BetweenOthers(c: bv16, before: bits, u: bits, v: bits, after: bits)
    ensures Register(c, before + u + after) == Register(c, before + v + after)
       <==> Register(Register(c, before), u) == Register(Register(c, before), v)
  {
    hide Register;
    RegisterConcat(c, before + u, after);
    RegisterConcat(c, before + v, after);
    RegisterConcat(c, before, u);
    RegisterConcat(c, before, v);
    if Register(c, before + u + after) == Register(c, before + v + after) {
      RegisterInjective(Register(c, before + u), Register(c, before + v), after);
    }
  }

  /**
   Two messages that differ in exactly two bits have the same checksum if and only if the distance of
   these bits is a multiple of 32767, so that closer ones never go unnoticed.
  */
  lemma TwoBitErrorsIff(m: seq<bv8>, m': seq<bv8>, p: nat, q: nat)
    requires |m| == |m'| && p < q < 8 * |m|
    requires var s := MessageBits(m); MessageBits(m') == s[p := !s[p]][q := !s[q]]
    ensures Crc(m) == Crc(m') <==> (q - p) % ORDER == 0
  {
    hide MessageBits, Register, CrcFrom;
    var s := MessageBits(m);
    CrcIsRegister(INITIAL, m);
    CrcIsRegister(INITIAL, m');
    var before, mid, after := s[..p], s[p + 1..q], s[q + 1..];
    CutAt(s, p, q, s[p], s[q]);
    CutAt(s, p, q, !s[p], !s[q]);
    assert s[p := s[p]][q := s[q]] == s;
    BetweenOthers(INITIAL, before, [s[p]] + mid + [s[q]], [!s[p]] + mid + [!s[q]], after);
    TwoBitsInRegister(Register(INITIAL, before), s[p], mid, s[q]);
  }
}
