/**
 The conversion `%<width>x` of `sscanf`, as section 7.21.6.2 of ISO/IEC 9899:2011 describes it: white
 space is skipped and does not count, then the longest text of at most `width` characters is taken
 that is, or begins, a number, which may have a sign and a `0x`. A negative number wraps around.
*/
module Scanfs {
  import opened Words
  import opened Bytes

  const DIGIT0: u8 := 48
  const MINUS: u8 := 45

  // ---------------------------------------------------------------- hexadecimal text

  predicate IsHex(c: u8) {
    48 <= c <= 57 || 65 <= c <= 70 || 97 <= c <= 102
  }

  predicate AllHex(s: bytes) {
    forall i :: 0 <= i < |s| ==> IsHex(s[i])
  }

  function DigitValue(c: u8): (r: nat)
    requires IsHex(c)
    ensures r < 16
  {
    if c <= 57 then c - 48 else if c <= 70 then c - 55 else c - 87
  }

  /** The digit that `%X` prints. */
  function DigitOf(v: nat): (r: u8)
    requires v < 16
    ensures IsHex(r) && DigitValue(r) == v
  {
    if v < 10 then v + 48 else v + 55
  }

  function Pow16(n: nat): (r: nat)
    ensures r >= 1
  {
    if n == 0 then 1 else 16 * Pow16(n - 1)
  }

  function HexValue(s: bytes): nat
    requires AllHex(s)
  {
    if s == [] then 0 else HexValue(s[..|s| - 1]) * 16 + DigitValue(s[|s| - 1])
  }

  /** `n` digits of `v`, zero-padded. */
  function HexText(v: nat, n: nat): (r: bytes)
    ensures |r| == n && AllHex(r)
  {
    if n == 0 then [] else HexText(v / 16, n - 1) + [DigitOf(v % 16)]
  }

  lemma {:induction false} HexRoundTrip(v: nat, n: nat)
    requires v < Pow16(n)
    ensures HexValue(HexText(v, n)) == v
  {
    if n > 0 {
      HexRoundTrip(v / 16, n - 1);
      assert HexText(v, n)[..n - 1] == HexText(v / 16, n - 1);
    }
  }

  lemma {:induction false} HexBound(s: bytes)
    requires AllHex(s)
    ensures HexValue(s) < Pow16(|s|)
  {
    if s != [] {
      HexBound(s[..|s| - 1]);
    }
  }

  lemma {:induction false} HexAppend(s: bytes, t: bytes)
    requires AllHex(s) && AllHex(t)
    ensures AllHex(s + t) && HexValue(s + t) == HexValue(s) * Pow16(|t|) + HexValue(t)
  {
    if t == [] {
      assert s + t == s;
    } else {
      var t' := t[..|t| - 1];
      HexAppend(s, t');
      assert (s + t)[..|s + t| - 1] == s + t';
      assert (s + t)[|s + t| - 1] == t[|t| - 1];
      Distribute(HexValue(s), Pow16(|t'|), HexValue(t'));
    }
  }

  lemma Distribute(a: nat, p: nat, b: nat)
    ensures (a * p + b) * 16 == a * (16 * p) + b * 16
  {
  }

  lemma Pow16Small()
    ensures Pow16(4) == 0x1_0000 && Pow16(8) == 0x1_0000_0000
    ensures Pow16(12) == 0x1_0000_0000_0000 && Pow16(16) == 0x1_0000_0000_0000_0000
  {
    assert Pow16(2) == 0x100 && Pow16(6) == 0x100_0000;
    assert Pow16(10) == 0x100_0000_0000 && Pow16(14) == 0x100_0000_0000_0000;
  }

  // ---------------------------------------------------------------- the conversion

  /**
   What the library does with a `0x` that no digit follows. The standard makes it a failure, and some
   libraries do so; others take it for zero. Nothing is assumed here: all results hold either way.
  */
  const BARE_PREFIX_IS_ZERO: bool

  predicate IsSpace(c: u8) {
    c == 32 || 9 <= c <= 13
  }

  predicate IsSign(c: u8) {
    c == 43 || c == MINUS
  }

  function SpaceRun(s: bytes): (n: nat)
    ensures n <= |s|
  {
    if s != [] && IsSpace(s[0]) then 1 + SpaceRun(s[1..]) else 0
  }

  /** Behind the sign, if there is one. */
  function SignEnd(t: bytes): (i: nat)
    ensures i <= 1 && i <= |t|
  {
    if t != [] && IsSign(t[0]) then 1 else 0
  }

  /** `0x` or `0X` stands at position `i`. */
  predicate PrefixAt(t: bytes, i: nat) {
    i + 2 <= |t| && t[i] == DIGIT0 && (t[i + 1] == 120 || t[i + 1] == 88)
  }

  /** Where the digits begin, if `width` characters may be taken. */
  function DigitsStart(t: bytes, width: nat): (i: nat)
    requires width > 0
    ensures i <= |t| && i <= width
  {
    if SignEnd(t) + 2 <= width && PrefixAt(t, SignEnd(t)) then SignEnd(t) + 2 else SignEnd(t)
  }

  /** The end of the digits from position `i` on, not beyond `limit`. */
  function DigitsEnd(t: bytes, i: nat, limit: nat): (e: nat)
    requires i <= |t| && i <= limit
    ensures i <= e <= |t| && e <= limit
    ensures forall j :: i <= j < e ==> IsHex(t[j])
    ensures e < |t| && e < limit ==> !IsHex(t[e])
    decreases |t| - i
  {
    if i < |t| && i < limit && IsHex(t[i]) then DigitsEnd(t, i + 1, limit) else i
  }

  /** The value of a number as an `unsigned int`. */
  function Signed(negative: bool, v: nat): nat {
    if negative then (0x1_0000_0000 - v % 0x1_0000_0000) % 0x1_0000_0000 else v
  }

  predicate IsNegative(t: bytes) {
    t != [] && t[0] == MINUS
  }

  /** One `%<width>x`: its value and what is left, or a failure, which ends the scan. */
  function ScanHex(s: bytes, width: nat): Option<(nat, bytes)>
    requires width > 0
  {
    Convert(s[SpaceRun(s)..], width)
  }

  /** The conversion behind the white space. */
  function Convert(t: bytes, width: nat): Option<(nat, bytes)>
    requires width > 0
  {
    var d := DigitsStart(t, width);
    var e := DigitsEnd(t, d, width);
    if e == d && !(d == SignEnd(t) + 2 && BARE_PREFIX_IS_ZERO) then None
    else Some((Signed(IsNegative(t), HexValue(t[d..e])), t[e..]))
  }

  // ---------------------------------------------------------------- the standard's description

  predicate HexFrom(f: bytes, i: nat) {
    forall j :: i <= j < |f| ==> IsHex(f[j])
  }

  /** A matching sequence: an optional sign, an optional `0x`, and digits. */
  predicate Numeral(f: bytes) {
    var k := SignEnd(f);
    || (k < |f| && HexFrom(f, k))
    || (PrefixAt(f, k) && HexFrom(f, k + 2) && (k + 2 < |f| || BARE_PREFIX_IS_ZERO))
  }

  function NumeralValue(f: bytes): nat
    requires Numeral(f)
  {
    Signed(IsNegative(f), HexValue(f[if PrefixAt(f, SignEnd(f)) then SignEnd(f) + 2 else SignEnd(f)..]))
  }

  /** Is, or begins, a matching sequence. */
  ghost predicate Begins(f: bytes) {
    exists g: bytes :: Numeral(f + g)
  }

  predicate Started(f: bytes) {
    HexFrom(f, SignEnd(f)) || (PrefixAt(f, SignEnd(f)) && HexFrom(f, SignEnd(f) + 2))
  }

  lemma BeginsIff(f: bytes)
    ensures Begins(f) <==> Started(f)
  {
    if Started(f) {
      var h := f + [DIGIT0];
      assert forall j :: 0 <= j < |f| ==> h[j] == f[j];
      assert SignEnd(h) == SignEnd(f);
      assert Numeral(h);
    }
    forall g: bytes | Numeral(f + g) ensures Started(f) {
      StartedPrefix(f + g, |f|);
      assert (f + g)[..|f|] == f;
    }
  }

  lemma StartedPrefix(h: bytes, n: nat)
    requires Started(h) && n <= |h|
    ensures Started(h[..n])
  {
    var f := h[..n];
    assert forall j :: 0 <= j < n ==> f[j] == h[j];
  }

  /** `s` is white space, then the longest text of at most `width` characters that begins a number,
      which is the number `f`, and then `rest`. */
  ghost predicate Item(s: bytes, width: nat, f: bytes, rest: bytes) {
    var t := s[SpaceRun(s)..];
    && t == f + rest && |f| <= width && Numeral(f)
    && forall m :: |f| < m <= |t| && m <= width ==> !Begins(t[..m])
  }

  /** Where the text that is taken ends. */
  function ItemEnd(t: bytes, width: nat): (e: nat)
    requires width > 0
    ensures e <= |t| && e <= width
  {
    DigitsEnd(t, DigitsStart(t, width), width)
  }

  lemma TakenBegins(t: bytes, width: nat)
    requires width > 0
    ensures Begins(t[..ItemEnd(t, width)])
  {
    hide DigitsEnd;
    var f := t[..ItemEnd(t, width)];
    assert forall j :: 0 <= j < |f| ==> f[j] == t[j];
    BeginsIff(f);
  }

  /** Nothing longer than what is taken begins a number. */
  lemma TakenIsLongest(t: bytes, width: nat, m: nat)
    requires width > 0 && ItemEnd(t, width) < m <= |t| && m <= width
    ensures !Begins(t[..m])
  {
    hide DigitsEnd;
    var f, e := t[..m], ItemEnd(t, width);
    assert forall j :: 0 <= j < m ==> f[j] == t[j];
    assert !IsHex(f[e]);
    BeginsIff(f);
  }

  /** The conversion succeeds exactly when what is taken is a number, with its value. */
  lemma ConvertTakes(t: bytes, width: nat)
    requires width > 0
    ensures var e := ItemEnd(t, width);
            Convert(t, width) == if Numeral(t[..e]) then Some((NumeralValue(t[..e]), t[e..])) else None
  {
    hide DigitsEnd, HexValue, Signed;
    var d, e := DigitsStart(t, width), ItemEnd(t, width);
    var f := t[..e];
    assert forall j :: 0 <= j < e ==> f[j] == t[j];
    assert f[d..] == t[d..e];
    assert SignEnd(f) == if e == 0 then 0 else SignEnd(t);
    assert d == SignEnd(t) + 2 ==> e >= 2 && PrefixAt(f, SignEnd(t));
    assert d == SignEnd(t) && d + 1 < e ==> IsHex(f[d + 1]);
  }

  /** No other text than what is taken is the longest. */
  lemma OnlyItem(s: bytes, width: nat, f: bytes, rest: bytes)
    requires width > 0 && Item(s, width, f, rest)
    ensures var t := s[SpaceRun(s)..]; |f| == ItemEnd(t, width) && f == t[..|f|] && rest == t[|f|..]
  {
    hide SpaceRun, Numeral, ItemEnd;
    var t := s[SpaceRun(s)..];
    var e := ItemEnd(t, width);
    assert t[..|f|] == f && t[|f|..] == rest && f + [] == f;
    if e < |f| {
      TakenIsLongest(t, width, |f|);
    } else if |f| < e {
      TakenBegins(t, width);
    }
  }

  /** The conversion succeeds exactly as the standard says, with the value and the rest it says. */
  lemma ScanHexIff(s: bytes, width: nat, v: nat, rest: bytes)
    requires width > 0
    ensures ScanHex(s, width) == Some((v, rest)) <==> exists f: bytes :: Item(s, width, f, rest) && NumeralValue(f) == v
  {
    hide Convert, ItemEnd, SpaceRun, Begins, Numeral, NumeralValue;
    var t := s[SpaceRun(s)..];
    var e := ItemEnd(t, width);
    ConvertTakes(t, width);
    forall m | e < m <= |t| && m <= width ensures !Begins(t[..m]) {
      TakenIsLongest(t, width, m);
    }
    assert t == t[..e] + t[e..];
    if ScanHex(s, width) == Some((v, rest)) {
      assert Item(s, width, t[..e], rest);
    }
    forall f: bytes | Item(s, width, f, rest) && NumeralValue(f) == v ensures ScanHex(s, width) == Some((v, rest)) {
      OnlyItem(s, width, f, rest);
    }
  }

  // ---------------------------------------------------------------- simple texts

  /** A field of digits is taken as it is. */
  lemma ScanDigits(s: bytes, width: nat)
    requires 0 < width <= |s| && AllHex(s[..width]) && !PrefixAt(s, 0)
    ensures ScanHex(s, width) == Some((HexValue(s[..width]), s[width..]))
  {
    hide HexValue, DigitsEnd;
    assert forall j :: 0 <= j < width ==> s[j] == s[..width][j];
    assert SpaceRun(s) == 0 && s[0..] == s;
    assert DigitsStart(s, width) == 0;
    assert DigitsEnd(s, 0, width) == width;
    assert s[0..width] == s[..width];
  }

  /** No white space, sign or prefix anywhere. */
  predicate Plain(s: bytes) {
    forall i :: 0 <= i < |s| ==> !IsSpace(s[i]) && !IsSign(s[i]) && s[i] != 120 && s[i] != 88
  }

  /** In a plain text, the conversion takes the digits that are there. */
  lemma ScanPlain(s: bytes, width: nat)
    requires width > 0 && Plain(s)
    ensures var e := DigitsEnd(s, 0, width);
            ScanHex(s, width) == if e == 0 then None else Some((HexValue(s[..e]), s[e..]))
  {
    hide HexValue, DigitsEnd;
    assert SpaceRun(s) == 0 && s[0..] == s;
    assert SignEnd(s) == 0 && DigitsStart(s, width) == 0;
    assert s[0..DigitsEnd(s, 0, width)] == s[..DigitsEnd(s, 0, width)];
  }
}
