/** Device URIs: `xi-net://<host>/<hex id>`. Text is a sequence of bytes without the terminating zero. */
module Uris {
  import opened Words
  import opened Bytes
  import opened DevIds
  import opened Scanfs

  const XI_URI_SCHEMA_LEN := 16
  const XI_URI_HOST_LEN := 64

  const SPACE: u8 := 32
  const TAB: u8 := 9
  const SLASH: u8 := 47

  /** The text `xi-net`. */
  const XI_NET: bytes := [120, 105, 45, 110, 101, 116]
  /** The text `://`. */
  const SEPARATOR: bytes := [58, 47, 47]

  // ---------------------------------------------------------------- C string functions

  /** `strspn(s, " \t")` */
  function Blanks(s: bytes): (n: nat)
    ensures n <= |s|
  {
    if s != [] && (s[0] == SPACE || s[0] == TAB) then 1 + Blanks(s[1..]) else 0
  }

  /** `strchr`: the first position of a character. */
  function IndexOf(s: bytes, c: u8): (r: Option<nat>)
    ensures r.Some? ==> r.value < |s| && s[r.value] == c && forall i :: 0 <= i < r.value ==> s[i] != c
    ensures r.None? ==> forall i :: 0 <= i < |s| ==> s[i] != c
  {
    if s == [] then None
    else if s[0] == c then Some(0)
    else match IndexOf(s[1..], c) case None => None case Some(i) => Some(i + 1)
  }

  predicate StartsWith(s: bytes, p: bytes) {
    |p| <= |s| && s[..|p|] == p
  }

  /** `strstr`: the first position of a text. */
  function Find(s: bytes, p: bytes): (r: Option<nat>)
    ensures r.Some? ==> r.value + |p| <= |s| && StartsWith(s[r.value..], p)
  {
    if StartsWith(s, p) then Some(0)
    else if s == [] then None
    else match Find(s[1..], p) case None => None case Some(i) => Some(i + 1)
  }

  datatype IdFields = IdFields(reserve: nat, vid: nat, pid: nat, id: nat)

  /** `sscanf(s, "%8x%4x%4x%8x", ...) == 4` */
  function ScanId(s: bytes): Option<IdFields> {
    match ScanHex(s, 8)
    case None => None
    case Some((reserve, s1)) =>
      match ScanHex(s1, 4)
      case None => None
      case Some((vid, s2)) =>
        match ScanHex(s2, 4)
        case None => None
        case Some((pid, s3)) =>
          match ScanHex(s3, 8)
          case None => None
          case Some((id, _)) => Some(IdFields(reserve, vid, pid, id))
  }

  // ---------------------------------------------------------------- the parser

  datatype UriResult = BadUri | GoodUri(host: bytes, dev: DevId)

  function Zeros(n: nat): (r: bytes)
    ensures |r| == n
  {
    seq(n, i => DIGIT0)
  }

  /** An id shorter than 24 characters is padded on the left. */
  function Padded(s: bytes): (r: bytes)
    requires |s| <= 24
    ensures |r| == 24
  {
    Zeros(24 - |s|) + s
  }

  function ParseId(s: bytes): Option<DevId> {
    if |s| > 24 then None
    else match ScanId(Padded(s))
      case None => None
      case Some(f) => Some(CutId(f))
  }

  /** Only 16 bits of `reserve` are kept. */
  function CutId(f: IdFields): DevId {
    DevId(f.reserve % 0x1_0000, f.vid % 0x1_0000, f.pid % 0x1_0000, f.id % 0x1_0000_0000)
  }

  function ParseAfterSchema(s: bytes): UriResult {
    match IndexOf(s, SLASH)
    case None => BadUri
    case Some(l) =>
      if l >= XI_URI_HOST_LEN then BadUri
      else match ParseId(s[l + 1..])
        case None => BadUri
        case Some(dev) => GoodUri(s[..l], dev)
  }

  function ParseUri(uri: bytes): UriResult {
    var p := uri[Blanks(uri)..];
    match Find(p, SEPARATOR)
    case None => BadUri
    case Some(l) =>
      if l >= XI_URI_SCHEMA_LEN || p[..l] != XI_NET then BadUri
      else ParseAfterSchema(p[l + 3..])
  }

  /** A fixed C buffer that holds a text and zeros behind it. */
  ghost predicate HoldsText(a: array<u8>, s: bytes)
    reads a
  {
    |s| <= a.Length && a[..|s|] == s && forall i :: |s| <= i < a.Length ==> a[i] == 0
  }

  /** The output structure. */
  class ParsedUri {
    const schema: array<u8>
    const host: array<u8>
    var dev: DevId

    constructor ()
      ensures fresh(schema) && fresh(host) && schema != host
      ensures schema.Length == XI_URI_SCHEMA_LEN && host.Length == XI_URI_HOST_LEN
    {
      schema := new u8[XI_URI_SCHEMA_LEN](i => 0);
      host := new u8[XI_URI_HOST_LEN](i => 0);
      dev := NO_ID;
    }

    ghost predicate Valid() {
      schema != host && schema.Length == XI_URI_SCHEMA_LEN && host.Length == XI_URI_HOST_LEN
    }
  }

  method Clear(a: array<u8>)
    modifies a
    ensures HoldsText(a, [])
  {
    forall i | 0 <= i < a.Length {
      a[i] := 0;
    }
  }

  method CopyText(a: array<u8>, s: bytes)
    requires HoldsText(a, []) && |s| <= a.Length
    modifies a
    ensures HoldsText(a, s)
  {
    forall i | 0 <= i < |s| {
      a[i] := s[i];
    }
  }

  /** Returns 0 for a URI that parses and 1 otherwise, also when there is nowhere to put the parts. */
  method ParseUriDev12(uri: bytes, parsed: ParsedUri?) returns (err: u32)
    requires parsed != null ==> parsed.Valid()
    modifies parsed, if parsed != null then {parsed.schema, parsed.host} else {}
    ensures parsed == null ==> err == 1
    ensures parsed != null ==>
      match ParseUri(uri)
      case BadUri => err == 1 && parsed.dev == NO_ID
      case GoodUri(h, d) => err == 0 && HoldsText(parsed.schema, XI_NET) && HoldsText(parsed.host, h) && parsed.dev == d
  {
    hide Find, IndexOf, ScanId, Blanks, Zeros;
    if parsed == null {
      return 1;
    }
    Clear(parsed.schema);
    Clear(parsed.host);
    parsed.dev := NO_ID;
    var p := uri[Blanks(uri)..];
    var endS := Find(p, SEPARATOR);
    if endS.Some? && endS.value < XI_URI_SCHEMA_LEN {
      CopyText(parsed.schema, p[..endS.value]);
      if p[..endS.value] == XI_NET {
        p := p[endS.value + 3..];
        endS := IndexOf(p, SLASH);
        if endS.Some? && endS.value < XI_URI_HOST_LEN {
          CopyText(parsed.host, p[..endS.value]);
          p := p[endS.value + 1..];
          if |p| <= 24 {
            var sdev := Padded(p);
            var fields := ScanId(sdev);
            if fields.Some? {
              parsed.dev := CutId(fields.value);
              return 0;
            }
          }
        }
      }
    }
    return 1;
  }

  // ---------------------------------------------------------------- laws

  /** 24 digits are scanned as four numbers. */
  lemma ScanFullId(s: bytes)
    requires |s| == 24 && AllHex(s)
    ensures ScanId(s) == Some(IdFields(HexValue(s[..8]), HexValue(s[8..12]), HexValue(s[12..16]), HexValue(s[16..])))
  {
    hide ScanHex, HexValue;
    NoPrefix(s, 0);
    ScanDigits(s, 8);
    NoPrefix(s, 8);
    ScanDigits(s[8..], 4);
    assert s[8..][..4] == s[8..12] && s[8..][4..] == s[12..];
    NoPrefix(s, 12);
    ScanDigits(s[12..], 4);
    assert s[12..][..4] == s[12..16] && s[12..][4..] == s[16..];
    NoPrefix(s, 16);
    ScanDigits(s[16..], 8);
    assert s[16..][..8] == s[16..];
  }

  lemma NoPrefix(s: bytes, i: nat)
    requires i <= |s| && AllHex(s)
    ensures !PrefixAt(s[i..], 0) && AllHex(s[i..])
  {
    assert i + 1 < |s| ==> s[i..][1] == s[i + 1] && IsHex(s[i + 1]);
  }

  lemma {:induction false} ZerosValue(n: nat)
    ensures AllHex(Zeros(n)) && HexValue(Zeros(n)) == 0
  {
    if n > 0 {
      ZerosValue(n - 1);
      assert Zeros(n)[..n - 1] == Zeros(n - 1);
    }
  }

  lemma SplitAt(s: bytes, i: nat, j: nat)
    requires i <= j <= |s|
    ensures s[i..] == s[i..j] + s[j..]
  {
  }

  /** The number that 24 digits spell, in terms of the four fields. */
  lemma FieldsValue(s: bytes)
    requires |s| == 24 && AllHex(s)
    ensures HexValue(s[..8]) < 0x1_0000_0000 && HexValue(s[8..12]) < 0x1_0000 && HexValue(s[12..16]) < 0x1_0000
            && HexValue(s[16..]) < 0x1_0000_0000
    ensures HexValue(s) == HexValue(s[..8]) * 0x1_0000_0000_0000_0000 + HexValue(s[8..12]) * 0x1_0000_0000_0000
                         + HexValue(s[12..16]) * 0x1_0000_0000 + HexValue(s[16..])
  {
    Pow16Small();
    HexBound(s[..8]);
    HexBound(s[8..12]);
    HexBound(s[12..16]);
    HexBound(s[16..]);
    hide HexValue, Pow16;
    assert s == s[..8] + s[8..];
    SplitAt(s, 8, 12);
    SplitAt(s, 12, 16);
    HexAppend(s[..8], s[8..]);
    HexAppend(s[8..12], s[12..]);
    HexAppend(s[12..16], s[16..]);
  }

  /**
   The value of an id of at most 24 digits: every such id parses, and its fields are the number it
   spells, cut into pieces of 32, 16, 16 and 32 bits; of the topmost piece only 16 bits stay.
  */
  lemma IdValue(s: bytes)
    requires |s| <= 24 && AllHex(s)
    ensures ParseId(s).Some?
    ensures var d, v := ParseId(s).value, HexValue(s);
            && d.id == v % 0x1_0000_0000
            && d.pid == v / 0x1_0000_0000 % 0x1_0000
            && d.vid == v / 0x1_0000_0000_0000 % 0x1_0000
            && d.reserve == v / 0x1_0000_0000_0000_0000 % 0x1_0000
  {
    hide HexValue, ScanId, Padded, CutId;
    var t := Padded(s);
    PaddingKeepsValue(s);
    ScanFullId(t);
    FieldsCut(t);
  }

  lemma FieldsCut(t: bytes)
    requires |t| == 24 && AllHex(t)
    ensures var f := IdFields(HexValue(t[..8]), HexValue(t[8..12]), HexValue(t[12..16]), HexValue(t[16..]));
            var d, v := CutId(f), HexValue(t);
            && d.id == v % 0x1_0000_0000
            && d.pid == v / 0x1_0000_0000 % 0x1_0000
            && d.vid == v / 0x1_0000_0000_0000 % 0x1_0000
            && d.reserve == v / 0x1_0000_0000_0000_0000 % 0x1_0000
  {
    hide HexValue;
    FieldsValue(t);
    CutFields(HexValue(t[..8]), HexValue(t[8..12]), HexValue(t[12..16]), HexValue(t[16..]));
  }

  lemma PaddingKeepsValue(s: bytes)
    requires |s| <= 24 && AllHex(s)
    ensures AllHex(Padded(s)) && HexValue(Padded(s)) == HexValue(s)
  {
    hide HexValue, Zeros, Pow16;
    ZerosValue(24 - |s|);
    HexAppend(Zeros(24 - |s|), s);
  }

  lemma CutFields(r: nat, v: nat, p: nat, i: nat)
    requires r < 0x1_0000_0000 && v < 0x1_0000 && p < 0x1_0000 && i < 0x1_0000_0000
    ensures var n := r * 0x1_0000_0000_0000_0000 + v * 0x1_0000_0000_0000 + p * 0x1_0000_0000 + i;
            && n % 0x1_0000_0000 == i
            && n / 0x1_0000_0000 % 0x1_0000 == p
            && n / 0x1_0000_0000_0000 % 0x1_0000 == v
            && n / 0x1_0000_0000_0000_0000 % 0x1_0000 == r % 0x1_0000
  {
    var n := r * 0x1_0000_0000_0000_0000 + v * 0x1_0000_0000_0000 + p * 0x1_0000_0000 + i;
    DivUnique(n, 0x1_0000_0000, r * 0x1_0000_0000 + v * 0x1_0000 + p, i);
    DivUnique(r * 0x1_0000_0000 + v * 0x1_0000 + p, 0x1_0000, r * 0x1_0000 + v, p);
    DivUnique(n, 0x1_0000_0000_0000, r * 0x1_0000 + v, p * 0x1_0000_0000 + i);
    DivUnique(r * 0x1_0000 + v, 0x1_0000, r, v);
    DivUnique(n, 0x1_0000_0000_0000_0000, r, v * 0x1_0000_0000_0000 + p * 0x1_0000_0000 + i);
  }

  // ---------------------------------------------------------------- which ids are accepted

  /** A text that is four numbers, each as long as it can be, and what is behind them. */
  ghost predicate FourItems(t: bytes, f0: bytes, f1: bytes, f2: bytes, f3: bytes) {
    exists r0: bytes, r1: bytes, r2: bytes, r3: bytes ::
      Item(t, 8, f0, r0) && Item(r0, 4, f1, r1) && Item(r1, 4, f2, r2) && Item(r2, 8, f3, r3)
  }

  /**
   Exactly which ids are accepted, of all texts: those that, padded on the left, are four numbers as
   `sscanf` takes them, with white space, signs and prefixes; and the id is made of their values.
  */
  lemma IdAcceptedIff(s: bytes, d: DevId)
    ensures ParseId(s) == Some(d) <==>
      |s| <= 24 && exists f0: bytes, f1: bytes, f2: bytes, f3: bytes ::
        && FourItems(Padded(s), f0, f1, f2, f3) && Numeral(f0) && Numeral(f1) && Numeral(f2) && Numeral(f3)
        && d == CutId(IdFields(NumeralValue(f0), NumeralValue(f1), NumeralValue(f2), NumeralValue(f3)))
  {
    hide ScanHex, Item, Numeral, NumeralValue, CutId, Padded;
    if |s| <= 24 {
      var t := Padded(s);
      if ParseId(s) == Some(d) {
        var f := ScannedItems(t);
      }
      forall f0: bytes, f1: bytes, f2: bytes, f3: bytes | FourItems(t, f0, f1, f2, f3)
        ensures Numeral(f0) && Numeral(f1) && Numeral(f2) && Numeral(f3)
        ensures ScanId(t) == Some(IdFields(NumeralValue(f0), NumeralValue(f1), NumeralValue(f2), NumeralValue(f3)))
      {
        ItemsScanned(t, f0, f1, f2, f3);
      }
    }
  }

  lemma ItemIsNumeral(s: bytes, width: nat, f: bytes, rest: bytes)
    requires Item(s, width, f, rest)
    ensures Numeral(f)
  {
  }

  lemma ItemsScanned(t: bytes, f0: bytes, f1: bytes, f2: bytes, f3: bytes)
    requires FourItems(t, f0, f1, f2, f3)
    ensures Numeral(f0) && Numeral(f1) && Numeral(f2) && Numeral(f3)
    ensures ScanId(t) == Some(IdFields(NumeralValue(f0), NumeralValue(f1), NumeralValue(f2), NumeralValue(f3)))
  {
    hide ScanHex, Item, Numeral, NumeralValue;
    var r0: bytes, r1: bytes, r2: bytes, r3: bytes :|
      Item(t, 8, f0, r0) && Item(r0, 4, f1, r1) && Item(r1, 4, f2, r2) && Item(r2, 8, f3, r3);
    ItemIsNumeral(t, 8, f0, r0);
    ItemIsNumeral(r0, 4, f1, r1);
    ItemIsNumeral(r1, 4, f2, r2);
    ItemIsNumeral(r2, 8, f3, r3);
    ScanHexIff(t, 8, NumeralValue(f0), r0);
    ScanHexIff(r0, 4, NumeralValue(f1), r1);
    ScanHexIff(r1, 4, NumeralValue(f2), r2);
    ScanHexIff(r2, 8, NumeralValue(f3), r3);
  }

  lemma ScannedItem(s: bytes, width: nat) returns (f: bytes)
    requires width > 0 && ScanHex(s, width).Some?
    ensures Item(s, width, f, ScanHex(s, width).value.1)
    ensures Numeral(f) && NumeralValue(f) == ScanHex(s, width).value.0
  {
    hide ScanHex, NumeralValue;
    var (v, rest) := ScanHex(s, width).value;
    ScanHexIff(s, width, v, rest);
    f :| Item(s, width, f, rest) && NumeralValue(f) == v;
  }

  lemma ScannedItems(t: bytes) returns (f: (bytes, bytes, bytes, bytes))
    requires ScanId(t).Some?
    ensures FourItems(t, f.0, f.1, f.2, f.3) && Numeral(f.0) && Numeral(f.1) && Numeral(f.2) && Numeral(f.3)
    ensures ScanId(t) == Some(IdFields(NumeralValue(f.0), NumeralValue(f.1), NumeralValue(f.2), NumeralValue(f.3)))
  {
    hide ScanHex, Item, Numeral, NumeralValue;
    var f0 := ScannedItem(t, 8);
    var r0 := ScanHex(t, 8).value.1;
    var f1 := ScannedItem(r0, 4);
    var r1 := ScanHex(r0, 4).value.1;
    var f2 := ScannedItem(r1, 4);
    var r2 := ScanHex(r1, 4).value.1;
    var f3 := ScannedItem(r2, 8);
    f := (f0, f1, f2, f3);
  }

  /** A field of `width` characters of a plain text: digits, or the scan ends here or at the next field. */
  lemma ScanField(s: bytes, width: nat)
    requires 0 < width <= |s| && Plain(s)
    ensures if AllHex(s[..width]) then ScanHex(s, width) == Some((HexValue(s[..width]), s[width..]))
            else ScanHex(s, width).Some? ==>
              var rest := ScanHex(s, width).value.1; Plain(rest) && rest != [] && !IsHex(rest[0])
  {
    hide HexValue, ScanHex;
    ScanPlain(s, width);
    hide DigitsEnd;
    assert forall j :: 0 <= j < width ==> s[j] == s[..width][j];
  }

  lemma ScanNothing(s: bytes, width: nat)
    requires width > 0 && Plain(s) && s != [] && !IsHex(s[0])
    ensures ScanHex(s, width) == None
  {
    hide ScanHex;
    ScanPlain(s, width);
  }

  lemma AllHexParts(t: bytes)
    requires |t| == 24
    ensures AllHex(t[..17]) <==> AllHex(t[..8]) && AllHex(t[8..12]) && AllHex(t[12..16]) && IsHex(t[16])
  {
    assert forall i :: 0 <= i < 8 ==> t[..8][i] == t[..17][i];
    assert forall i :: 0 <= i < 4 ==> t[8..12][i] == t[..17][8 + i];
    assert forall i :: 0 <= i < 4 ==> t[12..16][i] == t[..17][12 + i];
    assert t[..17][16] == t[16];
    if AllHex(t[..8]) && AllHex(t[8..12]) && AllHex(t[12..16]) && IsHex(t[16]) {
      forall i | 0 <= i < 17 ensures IsHex(t[..17][i]) {
        assert i < 8 ==> t[i] == t[..8][i];
        assert 8 <= i < 12 ==> t[i] == t[8..12][i - 8];
        assert 12 <= i < 16 ==> t[i] == t[12..16][i - 12];
      }
    }
  }

  lemma ScanIdPlain(t: bytes)
    requires |t| == 24 && Plain(t)
    ensures ScanId(t).Some? <==> AllHex(t[..8]) && AllHex(t[8..12]) && AllHex(t[12..16]) && IsHex(t[16])
  {
    hide ScanHex, HexValue, AllHex, IsHex, Plain;
    ScanField(t, 8);
    if !AllHex(t[..8]) {
      if ScanHex(t, 8).Some? {
        ScanNothing(ScanHex(t, 8).value.1, 4);
      }
    } else {
      PlainRest(t, 8);
      ScanField(t[8..], 4);
      assert t[8..][..4] == t[8..12] && t[8..][4..] == t[12..];
      if !AllHex(t[8..12]) {
        if ScanHex(t[8..], 4).Some? {
          ScanNothing(ScanHex(t[8..], 4).value.1, 4);
        }
      } else {
        PlainRest(t, 12);
        ScanField(t[12..], 4);
        assert t[12..][..4] == t[12..16] && t[12..][4..] == t[16..];
        if !AllHex(t[12..16]) {
          if ScanHex(t[12..], 4).Some? {
            ScanNothing(ScanHex(t[12..], 4).value.1, 8);
          }
        } else {
          PlainRest(t, 16);
          LastField(t[16..]);
        }
      }
    }
  }

  lemma PlainRest(s: bytes, i: nat)
    requires i <= |s| && Plain(s)
    ensures Plain(s[i..])
  {
  }

  lemma LastField(s: bytes)
    requires s != [] && Plain(s)
    ensures ScanHex(s, 8).Some? <==> IsHex(s[0])
  {
    hide HexValue, ScanHex;
    ScanPlain(s, 8);
  }

  /**
   Which ids without white space, signs and prefixes are accepted: behind the padding, the first 17
   characters have to be digits; whatever follows the last digit is ignored.
  */
  lemma PlainIdAcceptedIff(s: bytes)
    requires Plain(s)
    ensures ParseId(s).Some? <==> |s| <= 24 && AllHex(Padded(s)[..17])
  {
    hide ScanId, AllHex;
    if |s| <= 24 {
      ScanIdPlain(Padded(s));
      AllHexParts(Padded(s));
    }
  }

  // ---------------------------------------------------------------- ids that are not plain

  /** An id of eight characters is one field, of which everything that `sscanf` takes is allowed. */
  lemma ShortId(s: bytes)
    requires |s| == 8
    ensures ParseId(s) == match ScanHex(s, 8) case None => None case Some((v, _)) => Some(DevId(0, 0, 0, v % 0x1_0000_0000))
  {
    hide ScanHex, HexValue;
    var t := Padded(s);
    FrontZeros(t, 0, 8);
    FrontZeros(t, 8, 4);
    assert t[8..][4..] == t[12..];
    FrontZeros(t, 12, 4);
    assert t[12..][4..] == t[16..] == s;
  }

  lemma FrontZeros(t: bytes, i: nat, width: nat)
    requires i + width <= 16 && width > 1 && |t| == 24 && t[..16] == Zeros(16)
    ensures ScanHex(t[i..], width) == Some((0, t[i..][width..]))
  {
    hide ScanHex, HexValue;
    assert forall j :: 0 <= j < width ==> t[i..][..width][j] == t[..16][i + j];
    assert t[i..][..width] == Zeros(width);
    assert t[i..][1] == t[i..][..width][1];
    ZerosValue(width);
    ScanDigits(t[i..], width);
  }

  lemma ZerosAnd(k: nat, c: u8)
    requires IsHex(c)
    ensures AllHex(Zeros(k) + [c]) && HexValue(Zeros(k) + [c]) == DigitValue(c)
  {
    ZerosValue(k);
    assert (Zeros(k) + [c])[..k] == Zeros(k);
  }

  /** Behind a sign or a prefix, zeros and a digit are that digit. */
  lemma ConvertsDigits(t: bytes, k: nat, c: u8)
    requires |t| <= 8 && IsHex(c) && DigitsStart(t, 8) + k + 1 == |t| && t[DigitsStart(t, 8)..] == Zeros(k) + [c]
    ensures Convert(t, 8) == Some((Signed(IsNegative(t), DigitValue(c)), []))
  {
    hide HexValue, DigitsEnd, DigitsStart;
    var d := DigitsStart(t, 8);
    ZerosAnd(k, c);
    assert forall j :: d <= j < |t| ==> t[j] == (Zeros(k) + [c])[j - d];
    assert DigitsEnd(t, d, 8) == |t|;
    assert t[d..|t|] == Zeros(k) + [c] && t[|t|..] == [];
  }

  /** `+0000001` is 1, `-0000001` is 2^32 - 1, `0x000009` is 9, and so is ` 0000009`. */
  lemma SignsPrefixesSpaces()
    ensures ParseId([43] + Zeros(6) + [49]) == Some(DevId(0, 0, 0, 1))
    ensures ParseId([MINUS] + Zeros(6) + [49]) == Some(DevId(0, 0, 0, 0xFFFF_FFFF))
    ensures ParseId([DIGIT0, 120] + Zeros(5) + [57]) == Some(DevId(0, 0, 0, 9))
    ensures ParseId([SPACE] + Zeros(6) + [57]) == Some(DevId(0, 0, 0, 9))
  {
    hide Convert, ParseId;
    var plus, minus := [43] + Zeros(6) + [49], [MINUS] + Zeros(6) + [49];
    var hex, space := [DIGIT0, 120] + Zeros(5) + [57], [SPACE] + Zeros(6) + [57];
    ShortId(plus);
    assert plus[0..] == plus && plus[1..] == Zeros(6) + [49];
    ConvertsDigits(plus, 6, 49);
    ShortId(minus);
    assert minus[0..] == minus && minus[1..] == Zeros(6) + [49];
    ConvertsDigits(minus, 6, 49);
    ShortId(hex);
    assert hex[0..] == hex && hex[2..] == Zeros(5) + [57];
    ConvertsDigits(hex, 5, 57);
    ShortId(space);
    SpaceSkipped(space);
    assert space[1..] == Zeros(6) + [57];
    ConvertsDigits(space[1..], 6, 57);
  }

  lemma SpaceSkipped(s: bytes)
    requires |s| >= 2 && IsSpace(s[0]) && !IsSpace(s[1])
    ensures SpaceRun(s) == 1
  {
    assert s[1..][0] == s[1];
  }

  /** `%08X%04X%04X%08X` */
  function IdText(d: DevId): (r: bytes)
    ensures |r| == 24 && AllHex(r)
  {
    HexText(d.reserve, 8) + HexText(d.vid, 4) + HexText(d.pid, 4) + HexText(d.id, 8)
  }

  /** A printed id parses to the id with its `reserve` cut to 16 bits. */
  lemma IdTextParses(d: DevId)
    ensures ParseId(IdText(d)) == Some(d.(reserve := d.reserve % 0x1_0000))
  {
    hide HexText, HexValue, ScanId, Pow16;
    Pow16Small();
    var s := IdText(d);
    assert s[..8] == HexText(d.reserve, 8) && s[8..12] == HexText(d.vid, 4)
        && s[12..16] == HexText(d.pid, 4) && s[16..] == HexText(d.id, 8);
    HexRoundTrip(d.reserve, 8);
    HexRoundTrip(d.vid, 4);
    HexRoundTrip(d.pid, 4);
    HexRoundTrip(d.id, 8);
    assert Padded(s) == s;
    ScanFullId(s);
  }

  /** `xi-net://<host>/<id>` */
  function UriText(host: bytes, d: DevId): bytes {
    XI_NET + SEPARATOR + host + [SLASH] + IdText(d)
  }

  predicate GoodHost(host: bytes) {
    |host| < XI_URI_HOST_LEN && forall i :: 0 <= i < |host| ==> host[i] != SLASH && host[i] != 0
  }

  lemma {:induction false} FindAt(s: bytes, p: bytes, k: nat)
    requires k <= |s| && StartsWith(s[k..], p) && forall j :: 0 <= j < k ==> !StartsWith(s[j..], p)
    ensures Find(s, p) == Some(k)
  {
    if k == 0 {
      assert s[0..] == s;
    } else {
      assert s[0..] == s;
      forall j | 0 <= j < k - 1 ensures !StartsWith(s[1..][j..], p) {
        assert s[1..][j..] == s[j + 1..];
      }
      assert s[1..][k - 1..] == s[k..];
      FindAt(s[1..], p, k - 1);
    }
  }

  /** The schema of a printed URI is found, because its own characters are no separator. */
  lemma SchemaFound(rest: bytes)
    ensures Blanks(XI_NET + SEPARATOR + rest) == 0
    ensures Find(XI_NET + SEPARATOR + rest, SEPARATOR) == Some(6)
  {
    var s := XI_NET + SEPARATOR + rest;
    assert s[..6] == XI_NET && s[6..9] == SEPARATOR;
    forall j | 0 <= j < 6 ensures !StartsWith(s[j..], SEPARATOR) {
      assert s[j..][..3][0] == XI_NET[j] != SEPARATOR[0];
    }
    assert s[6..][..3] == SEPARATOR;
    FindAt(s, SEPARATOR, 6);
  }

  lemma FirstSlash(host: bytes, rest: bytes)
    requires forall i :: 0 <= i < |host| ==> host[i] != SLASH
    ensures IndexOf(host + [SLASH] + rest, SLASH) == Some(|host|)
  {
    var s := host + [SLASH] + rest;
    assert s[|host|] == SLASH;
    assert forall i :: 0 <= i < |host| ==> s[i] == host[i];
  }

  /** A printed URI parses back, with `reserve` cut to 16 bits. */
  lemma UriParses(host: bytes, d: DevId)
    requires GoodHost(host)
    ensures ParseUri(UriText(host, d)) == GoodUri(host, d.(reserve := d.reserve % 0x1_0000))
  {
    hide IdText, ParseId;
    var rest := host + [SLASH] + IdText(d);
    var uri := UriText(host, d);
    assert uri == XI_NET + SEPARATOR + rest;
    SchemaFound(rest);
    assert uri[0..] == uri && uri[..6] == XI_NET && uri[9..] == rest;
    FirstSlash(host, IdText(d));
    assert rest[..|host|] == host && rest[|host| + 1..] == IdText(d);
    IdTextParses(d);
  }

  /** Printing and parsing loses nothing exactly when `reserve` fits in 16 bits. */
  lemma UriRoundTripIff(host: bytes, d: DevId)
    requires GoodHost(host)
    ensures ParseUri(UriText(host, d)) == GoodUri(host, d) <==> d.reserve < 0x1_0000
  {
    hide ParseUri, UriText;
    UriParses(host, d);
  }
}
