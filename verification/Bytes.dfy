/** Fixed-width integers as bytes, in both byte orders. */
module Bytes {
  import opened Words

  type bytes = seq<u8>

  function Pow256(n: nat): (r: nat)
    ensures r >= 1
  {
    if n == 0 then 1 else 256 * Pow256(n - 1)
  }

  /** The `n` low bytes of `v`, most significant first. */
  function Be(v: nat, n: nat): (r: bytes)
    ensures |r| == n
  {
    if n == 0 then [] else Be(v / 256, n - 1) + [v % 256]
  }

  function BeValue(s: bytes): nat {
    if s == [] then 0 else BeValue(s[..|s| - 1]) * 256 + s[|s| - 1]
  }

  /** The `n` low bytes of `v`, least significant first. */
  function Le(v: nat, n: nat): (r: bytes)
    ensures |r| == n
  {
    if n == 0 then [] else [v % 256] + Le(v / 256, n - 1)
  }

  function LeValue(s: bytes): nat {
    if s == [] then 0 else s[0] + 256 * LeValue(s[1..])
  }

  lemma {:induction false} BeValueBound(s: bytes)
    ensures BeValue(s) < Pow256(|s|)
  {
    if s != [] {
      BeValueBound(s[..|s| - 1]);
    }
  }

  lemma {:induction false} LeValueBound(s: bytes)
    ensures LeValue(s) < Pow256(|s|)
  {
    if s != [] {
      LeValueBound(s[1..]);
    }
  }

  /** Reading back what was written gives the value, cut to the width. */
  lemma {:induction false} BeRoundTrip(v: nat, n: nat)
    ensures BeValue(Be(v, n)) == v % Pow256(n)
  {
    if n > 0 {
      BeRoundTrip(v / 256, n - 1);
      assert Be(v, n)[..n - 1] == Be(v / 256, n - 1);
      ModStep(v, n);
    }
  }

  lemma {:induction false} LeRoundTrip(v: nat, n: nat)
    ensures LeValue(Le(v, n)) == v % Pow256(n)
  {
    if n > 0 {
      LeRoundTrip(v / 256, n - 1);
      assert Le(v, n)[1..] == Le(v / 256, n - 1);
      ModStep(v, n);
    }
  }

  lemma ModStep(v: nat, n: nat)
    requires n > 0
    ensures v % Pow256(n) == (v / 256) % Pow256(n - 1) * 256 + v % 256
  {
    var p, q := Pow256(n - 1), v / 256;
    assert v == 256 * (q / p * p + q % p) + v % 256;
    assert v == (q / p) * Pow256(n) + (q % p * 256 + v % 256) by {
      assert 256 * (q / p * p) == (q / p) * (256 * p);
    }
    DivUnique(v, Pow256(n), q / p, q % p * 256 + v % 256);
  }

  lemma DivUnique(v: nat, d: nat, q: nat, r: nat)
    requires d > 0 && r < d && v == q * d + r
    ensures v / d == q && v % d == r
  {
    var k: int := v / d - q;
    assert v == (v / d) * d + v % d;
    assert k * d == r - v % d by {
      assert (v / d) * d - q * d == k * d;
    }
    assert k >= 1 ==> k * d >= d;
    assert k <= -1 ==> (-k) * d >= d;
  }

  /** Writing back what was read gives the same bytes. */
  lemma {:induction false} BeOfValue(s: bytes)
    ensures Be(BeValue(s), |s|) == s
  {
    if s != [] {
      BeOfValue(s[..|s| - 1]);
      assert BeValue(s) / 256 == BeValue(s[..|s| - 1]) && BeValue(s) % 256 == s[|s| - 1];
      assert s == s[..|s| - 1] + [s[|s| - 1]];
    }
  }

  /** Byte `i` by shifting, as the writing loops compute it. */
  lemma {:induction false} LeAt(v: nat, n: nat, i: nat)
    requires i < n
    ensures Le(v, n)[i] == v / Pow256(i) % 256
  {
    if i > 0 {
      LeAt(v / 256, n - 1, i - 1);
      DivDiv(v, i);
    }
  }

  lemma {:induction false} BeAt(v: nat, n: nat, i: nat)
    requires i < n
    ensures Be(v, n)[i] == v / Pow256(n - 1 - i) % 256
  {
    if i < n - 1 {
      BeAt(v / 256, n - 1, i);
      DivDiv(v, n - 1 - i);
    }
  }

  lemma DivDiv(v: nat, n: nat)
    requires n > 0
    ensures v / 256 / Pow256(n - 1) == v / Pow256(n)
  {
    var p := Pow256(n - 1);
    var q := v / 256;
    assert v == 256 * (q / p * p + q % p) + v % 256;
    assert v == (q / p) * Pow256(n) + (256 * (q % p) + v % 256) by {
      assert 256 * (q / p * p) == (q / p) * (256 * p);
    }
    DivUnique(v, Pow256(n), q / p, 256 * (q % p) + v % 256);
  }

  /** A prefix of the value loop: reading one more byte. */
  lemma BeValueSnoc(s: bytes, b: u8)
    ensures BeValue(s + [b]) == BeValue(s) * 256 + b
  {
    assert (s + [b])[..|s|] == s;
  }

  lemma LeValueCons(b: u8, s: bytes)
    ensures LeValue([b] + s) == b + 256 * LeValue(s)
  {
    assert ([b] + s)[1..] == s;
  }

  lemma BeValueSlice(b: bytes, i: nat, j: nat)
    requires i <= j < |b|
    ensures BeValue(b[i..j + 1]) == BeValue(b[i..j]) * 256 + b[j]
  {
    hide BeValue;
    assert b[i..j + 1] == b[i..j] + [b[j]];
    BeValueSnoc(b[i..j], b[j]);
  }

  lemma LeValueSlice(b: bytes, i: nat, j: nat)
    requires i < j <= |b|
    ensures LeValue(b[i..j]) == b[i] + 256 * LeValue(b[i + 1..j])
  {
    hide LeValue;
    assert b[i..j] == [b[i]] + b[i + 1..j];
    LeValueCons(b[i], b[i + 1..j]);
  }

  lemma SliceOfSlice(b: bytes, i: nat, j: nat, p: nat, q: nat)
    requires i <= j <= |b| && p <= q <= j - i
    ensures b[i..j][p..q] == b[i + p..i + q]
  {
    var s, t := b[i..j][p..q], b[i + p..i + q];
    assert |s| == |t| && forall k :: 0 <= k < |s| ==> s[k] == b[i + p + k] == t[k];
  }

  // ---------------------------------------------------------------- 16 and 32 bits

  function Be32(v: u32): (r: bytes)
    ensures |r| == 4
  {
    Be(v, 4)
  }

  function Be16(v: u16): (r: bytes)
    ensures |r| == 2
  {
    Be(v, 2)
  }

  lemma Pow256Small()
    ensures Pow256(1) == 0x100 && Pow256(2) == 0x1_0000 && Pow256(4) == 0x1_0000_0000
  {
    assert Pow256(3) == 0x100_0000;
  }

  /** The 32-bit big-endian number at position `i`. */
  function U32At(b: bytes, i: nat): u32
    requires i + 4 <= |b|
  {
    BeValueBound(b[i..i + 4]);
    Pow256Small();
    BeValue(b[i..i + 4])
  }

  function U16At(b: bytes, i: nat): u16
    requires i + 2 <= |b|
  {
    BeValueBound(b[i..i + 2]);
    Pow256Small();
    BeValue(b[i..i + 2])
  }

  lemma U32AtIs(b: bytes, i: nat, v: u32)
    requires i + 4 <= |b| && b[i..i + 4] == Be32(v)
    ensures U32At(b, i) == v
  {
    BeRoundTrip(v, 4);
    Pow256Small();
  }

  lemma U16AtIs(b: bytes, i: nat, v: u16)
    requires i + 2 <= |b| && b[i..i + 2] == Be16(v)
    ensures U16At(b, i) == v
  {
    BeRoundTrip(v, 2);
    Pow256Small();
  }

  lemma Be32Of(b: bytes, i: nat)
    requires i + 4 <= |b|
    ensures Be32(U32At(b, i)) == b[i..i + 4]
  {
    BeOfValue(b[i..i + 4]);
  }

  lemma Be16Of(b: bytes, i: nat)
    requires i + 2 <= |b|
    ensures Be16(U16At(b, i)) == b[i..i + 2]
  {
    BeOfValue(b[i..i + 2]);
  }
}
