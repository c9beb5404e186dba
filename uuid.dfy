/**
 * Version-4 identifiers built from random material passed in as parameters:
 * sixteen random bytes (the secure path) or thirty-one random nibbles (the weak
 * fallback template). Layout and bit positions follow RFC 4122: the version
 * field (section 4.1.3) is the high nibble of byte 6 and the variant field
 * (section 4.1.1) the two high bits of byte 8 (section 4.4).
 */
module Uuid {
  import opened Wrappers

  /** A value in 0..15, the unit of one hexadecimal digit. */
  type Nibble = b: bv8 | b < 16

  const HEX_DIGITS: string := "0123456789abcdef"

  predicate IsLowerHex(c: char) {
    '0' <= c <= '9' || 'a' <= c <= 'f'
  }

  /** One nibble in base 16: a lower-case digit. */
  function HexDigit(n: Nibble): (c: char)
    ensures IsLowerHex(c)
  {
    HEX_DIGITS[n as int]
  }

  /** The value of a lower-case hexadecimal digit; the inverse of `HexDigit`. */
  function DigitValue(c: char): (n: Nibble)
    requires IsLowerHex(c)
    ensures HexDigit(n) == c
  {
    if c <= '9' then (c as int - '0' as int) as bv8 else (c as int - 'a' as int + 10) as bv8
  }

  lemma DigitValueOfHexDigit(n: Nibble)
    ensures DigitValue(HexDigit(n)) == n
  {
  }

  /** One byte in base 16, zero-padded: two lower-case digits, high nibble first. */
  function ByteHex(b: bv8): (r: string)
    ensures |r| == 2 && IsLowerHex(r[0]) && IsLowerHex(r[1])
  {
    [HexDigit(b >> 4), HexDigit(b & 0xf)]
  }

  predicate AllLowerHex(s: string) {
    forall i :: 0 <= i < |s| ==> IsLowerHex(s[i])
  }

  /** The hex string of a byte sequence: two digits per byte, in byte order. */
  function HexEncode(bytes: seq<bv8>): (r: string)
    ensures |r| == 2 * |bytes|
    ensures AllLowerHex(r)
    ensures forall i :: 0 <= i < |bytes| ==> r[2 * i..2 * i + 2] == ByteHex(bytes[i])
  {
    if bytes == [] then []
    else
      var rest := HexEncode(bytes[1..]);
      var r := ByteHex(bytes[0]) + rest;
      assert forall i :: 1 <= i < |bytes| ==> r[2 * i..2 * i + 2] == rest[2 * (i - 1)..2 * (i - 1) + 2];
      assert forall i :: 1 <= i < |bytes| ==> bytes[1..][i - 1] == bytes[i];
      r
  }

  /** Reads two lower-case digits per byte; fails on an odd length or any other character. */
  function HexDecode(s: string): (r: Option<seq<bv8>>)
    ensures r.Some? ==> |s| == 2 * |r.value|
    decreases |s|
  {
    if s == [] then Some([])
    else if |s| < 2 || !IsLowerHex(s[0]) || !IsLowerHex(s[1]) then None
    else match HexDecode(s[2..])
      case None => None
      case Some(t) => Some([(DigitValue(s[0]) << 4) | DigitValue(s[1])] + t)
  }

  lemma ByteFromNibbles(b: bv8)
    ensures ((b >> 4) << 4) | (b & 0xf) == b
  {
  }

  lemma NibblesFromByte(hi: Nibble, lo: Nibble)
    ensures ((hi << 4) | lo) >> 4 == hi && ((hi << 4) | lo) & 0xf == lo
  {
  }

  /** Decoding undoes encoding. */
  lemma {:induction false} HexDecodeEncode(bytes: seq<bv8>)
    ensures HexDecode(HexEncode(bytes)) == Some(bytes)
  {
    if bytes != [] {
      var s := HexEncode(bytes);
      assert s == ByteHex(bytes[0]) + HexEncode(bytes[1..]);
      assert s[2..] == HexEncode(bytes[1..]);
      HexDecodeEncode(bytes[1..]);
      ByteFromNibbles(bytes[0]);
      DigitValueOfHexDigit(bytes[0] >> 4);
      DigitValueOfHexDigit(bytes[0] & 0xf);
      assert [bytes[0]] + bytes[1..] == bytes;
    }
  }

  /** Encoding undoes decoding: a string is decodable only if it is the encoding of its bytes. */
  lemma {:induction false} HexEncodeDecode(s: string, bytes: seq<bv8>)
    requires HexDecode(s) == Some(bytes)
    ensures HexEncode(bytes) == s
  {
    if s != [] {
      var t := HexDecode(s[2..]).value;
      HexEncodeDecode(s[2..], t);
      var b := (DigitValue(s[0]) << 4) | DigitValue(s[1]);
      assert bytes == [b] + t;
      NibblesFromByte(DigitValue(s[0]), DigitValue(s[1]));
      assert bytes[1..] == t;
      assert s == [s[0], s[1]] + s[2..];
    }
  }

  /** Splits 32 digits into groups of 8, 4, 4, 4 and 12 joined by hyphens. */
  function Hyphenate(hex: string): (r: string)
    requires |hex| == 32
    ensures |r| == 36
  {
    hex[0..8] + "-" + hex[8..12] + "-" + hex[12..16] + "-" + hex[16..20] + "-" + hex[20..]
  }

  /** The 32 digits of a hyphenated identifier, with the four hyphens removed. */
  function Unhyphenate(id: string): (r: string)
    requires |id| == 36
    ensures |r| == 32
  {
    id[0..8] + id[9..13] + id[14..18] + id[19..23] + id[24..]
  }

  predicate IsHyphenPosition(i: int) {
    i == 8 || i == 13 || i == 18 || i == 23
  }

  /** 36 characters, hyphens at 8, 13, 18 and 23, lower-case hexadecimal digits elsewhere. */
  predicate IsCanonical(id: string) {
    |id| == 36
    && (forall i :: 0 <= i < 36 && IsHyphenPosition(i) ==> id[i] == '-')
    && (forall i :: 0 <= i < 36 && !IsHyphenPosition(i) ==> IsLowerHex(id[i]))
  }

  /** Canonical, with version digit `4` at index 14 and variant digit 8, 9, a or b at index 19. */
  predicate IsVersion4(id: string) {
    IsCanonical(id) && id[14] == '4' && id[19] in {'8', '9', 'a', 'b'}
  }

  lemma HyphenateUnhyphenate(hex: string)
    requires |hex| == 32
    ensures Unhyphenate(Hyphenate(hex)) == hex
  {
    var id := Hyphenate(hex);
    assert id[0..8] == hex[0..8] && id[9..13] == hex[8..12] && id[14..18] == hex[12..16];
    assert id[19..23] == hex[16..20] && id[24..] == hex[20..];
    assert hex == hex[0..8] + hex[8..12] + hex[12..16] + hex[16..20] + hex[20..];
  }

  lemma UnhyphenateHyphenate(id: string)
    requires |id| == 36 && id[8] == '-' && id[13] == '-' && id[18] == '-' && id[23] == '-'
    ensures Hyphenate(Unhyphenate(id)) == id
  {
    var hex := Unhyphenate(id);
    assert hex[0..8] == id[0..8] && hex[8..12] == id[9..13] && hex[12..16] == id[14..18];
    assert hex[16..20] == id[19..23] && hex[20..] == id[24..];
    assert id == id[0..8] + "-" + id[9..13] + "-" + id[14..18] + "-" + id[19..23] + "-" + id[24..];
  }

  /** The hyphenated hex form of sixteen bytes, without any masking. */
  function Format(bytes: seq<bv8>): (id: string)
    requires |bytes| == 16
    ensures IsCanonical(id)
  {
    var hex := HexEncode(bytes);
    var id := Hyphenate(hex);
    assert forall i :: 0 <= i < 8 ==> id[i] == hex[i];
    assert forall i :: 9 <= i < 13 ==> id[i] == hex[i - 1];
    assert forall i :: 14 <= i < 18 ==> id[i] == hex[i - 2];
    assert forall i :: 19 <= i < 23 ==> id[i] == hex[i - 3];
    assert forall i :: 24 <= i < 36 ==> id[i] == hex[i - 4];
    id
  }

  /** Reads an identifier back into its sixteen bytes; `None` unless it is in the 8-4-4-4-12 layout. */
  function Parse(id: string): (r: Option<seq<bv8>>)
    ensures r.Some? ==> |r.value| == 16
  {
    if |id| == 36 && id[8] == '-' && id[13] == '-' && id[18] == '-' && id[23] == '-'
    then HexDecode(Unhyphenate(id))
    else None
  }

  /** Parsing undoes formatting. */
  lemma ParseFormat(bytes: seq<bv8>)
    requires |bytes| == 16
    ensures Parse(Format(bytes)) == Some(bytes)
  {
    HyphenateUnhyphenate(HexEncode(bytes));
    HexDecodeEncode(bytes);
  }

  /** Formatting undoes parsing: every identifier that parses is the format of its bytes. */
  lemma FormatParse(id: string)
    requires Parse(id).Some?
    ensures Format(Parse(id).value) == id
  {
    HexEncodeDecode(Unhyphenate(id), Parse(id).value);
    UnhyphenateHyphenate(id);
  }

  /** Distinct byte strings give distinct identifiers. */
  lemma FormatInjective(a: seq<bv8>, b: seq<bv8>)
    requires |a| == 16 && |b| == 16 && Format(a) == Format(b)
    ensures a == b
  {
    ParseFormat(a);
    ParseFormat(b);
  }

  /**
   * Forces the high nibble of byte 6 to 4 (the version) and the two high bits
   * of byte 8 to `10` (the variant); every other bit is kept.
   */
  function Mask(bytes: seq<bv8>): (r: seq<bv8>)
    requires |bytes| == 16
    ensures |r| == 16
    ensures forall i :: 0 <= i < 16 && i != 6 && i != 8 ==> r[i] == bytes[i]
    ensures r[6] >> 4 == 4 && r[6] & 0x0f == bytes[6] & 0x0f
    ensures r[8] >> 6 == 2 && r[8] & 0x3f == bytes[8] & 0x3f
  {
    bytes[6 := (bytes[6] & 0x0f) | 0x40][8 := (bytes[8] & 0x3f) | 0x80]
  }

  /** The secure path: format sixteen random bytes after masking. */
  function FromBytes(bytes: seq<bv8>): (id: string)
    requires |bytes| == 16
    ensures IsVersion4(id)
  {
    var m := Mask(bytes);
    var hex := HexEncode(m);
    var id := Format(m);
    assert hex[12..14] == ByteHex(m[6]) && hex[16..18] == ByteHex(m[8]);
    assert id[14] == hex[12] && id[19] == hex[16];
    VariantDigit(m[8]);
    id
  }

  lemma FromBytesFormatsMask(bytes: seq<bv8>)
    requires |bytes| == 16
    ensures FromBytes(bytes) == Format(Mask(bytes))
  {
  }

  lemma VariantDigit(b: bv8)
    requires b >> 6 == 2
    ensures HexDigit(b >> 4) in {'8', '9', 'a', 'b'}
  {
    assert 8 <= b >> 4 <= 11;
  }

  /** Two identifiers from the secure path are equal only if the random bytes agree outside the six forced bits. */
  lemma FromBytesDeterminedByRandomBits(a: seq<bv8>, b: seq<bv8>)
    requires |a| == 16 && |b| == 16 && FromBytes(a) == FromBytes(b)
    ensures forall i :: 0 <= i < 16 && i != 6 && i != 8 ==> a[i] == b[i]
    ensures a[6] & 0x0f == b[6] & 0x0f && a[8] & 0x3f == b[8] & 0x3f
  {
    FormatInjective(Mask(a), Mask(b));
  }

  /** The two assignments that force the version and variant bits, in place. */
  method MaskInPlace(bytes: array<bv8>)
    requires bytes.Length == 16
    modifies bytes
    ensures bytes[..] == Mask(old(bytes[..]))
  {
    ghost var original := bytes[..];
    bytes[6] := (bytes[6] & 0x0f) | 0x40;
    bytes[8] := (bytes[8] & 0x3f) | 0x80;
    assert bytes[..] == original[6 := (original[6] & 0x0f) | 0x40][8 := (original[8] & 0x3f) | 0x80];
  }

  /**
   * The secure path as the source runs it: the sixteen random bytes are masked
   * in place in their array, then formatted.
   */
  method RandomValuesUuid(bytes: array<bv8>) returns (id: string)
    requires bytes.Length == 16
    modifies bytes
    ensures bytes[..] == Mask(old(bytes[..]))
    ensures id == Format(bytes[..]) && IsVersion4(id)
  {
    ghost var original := bytes[..];
    MaskInPlace(bytes);
    id := Format(bytes[..]);
    FromBytesFormatsMask(original);
  }

  /** The template of the weak fallback; each `x` and `y` is replaced by one random digit. */
  const FALLBACK_TEMPLATE: string := "xxxxxxxx-xxxx-4xxx-yxxx-xxxxxxxxxxxx"

  /** The number of `x` and `y` placeholders in a template: one random nibble is drawn for each. */
  function Placeholders(t: string): (n: nat)
    ensures n <= |t|
  {
    if t == [] then 0 else (if t[0] == 'x' || t[0] == 'y' then 1 else 0) + Placeholders(t[1..])
  }

  /**
   * Replaces each placeholder of the template in turn: an `x` becomes the digit
   * of the next nibble, a `y` that nibble's two low bits with `10` above them,
   * and anything else is kept.
   */
  function FillTemplate(t: string, rs: seq<Nibble>): (r: string)
    requires |rs| == Placeholders(t)
    ensures |r| == |t|
    ensures forall i :: 0 <= i < |t| && t[i] == 'x' ==> IsLowerHex(r[i])
    ensures forall i :: 0 <= i < |t| && t[i] == 'y' ==> r[i] in {'8', '9', 'a', 'b'}
    ensures forall i :: 0 <= i < |t| && t[i] != 'x' && t[i] != 'y' ==> r[i] == t[i]
  {
    if t == [] then []
    else
      var head :=
        if t[0] == 'x' then [HexDigit(rs[0])]
        else if t[0] == 'y' then [HexDigit((rs[0] & 0x3) | 0x8)]
        else [t[0]];
      var rest := FillTemplate(t[1..], if t[0] == 'x' || t[0] == 'y' then rs[1..] else rs);
      assert forall i :: 1 <= i < |t| ==> t[1..][i - 1] == t[i];
      head + rest
  }

  lemma {:induction false} PlaceholdersAppend(a: string, b: string)
    ensures Placeholders(a + b) == Placeholders(a) + Placeholders(b)
  {
    if a == [] {
      assert a + b == b;
    } else {
      assert (a + b)[0] == a[0] && (a + b)[1..] == a[1..] + b;
      PlaceholdersAppend(a[1..], b);
    }
  }

  lemma {:induction false} PlaceholdersOfXs(n: nat)
    ensures Placeholders(seq(n, _ => 'x')) == n
  {
    if n > 0 {
      assert seq(n, _ => 'x')[1..] == seq(n - 1, _ => 'x');
      PlaceholdersOfXs(n - 1);
    }
  }

  /** The fallback template asks for thirty-one random nibbles. */
  lemma FallbackPlaceholders()
    ensures Placeholders(FALLBACK_TEMPLATE) == 31
  {
    var x3, x4, x8, x12 := seq(3, _ => 'x'), seq(4, _ => 'x'), seq(8, _ => 'x'), seq(12, _ => 'x');
    PlaceholdersOfXs(3); PlaceholdersOfXs(4); PlaceholdersOfXs(8); PlaceholdersOfXs(12);
    assert "-"[1..] == [];
    assert "-4"[1..] == "4" && "4"[1..] == [];
    assert "-y"[1..] == "y" && "y"[1..] == [];
    var t1 := x8 + "-";   PlaceholdersAppend(x8, "-");
    var t2 := t1 + x4;    PlaceholdersAppend(t1, x4);
    var t3 := t2 + "-4";  PlaceholdersAppend(t2, "-4");
    var t4 := t3 + x3;    PlaceholdersAppend(t3, x3);
    var t5 := t4 + "-y";  PlaceholdersAppend(t4, "-y");
    var t6 := t5 + x3;    PlaceholdersAppend(t5, x3);
    var t7 := t6 + "-";   PlaceholdersAppend(t6, "-");
    var t8 := t7 + x12;   PlaceholdersAppend(t7, x12);
    assert Placeholders(t8) == 31;
    TemplateLayout(t8);
  }

  lemma TemplateLayout(t: string)
    requires t == seq(8, _ => 'x') + "-" + seq(4, _ => 'x') + "-4" + seq(3, _ => 'x') + "-y"
                  + seq(3, _ => 'x') + "-" + seq(12, _ => 'x')
    ensures t == FALLBACK_TEMPLATE
  {
  }

  /** A template in the version-4 layout: hyphens, `4` at index 14, `y` at index 19, `x` elsewhere. */
  predicate IsVersion4Template(t: string) {
    |t| == 36
    && (forall i :: 0 <= i < 36 && IsHyphenPosition(i) ==> t[i] == '-')
    && (forall i :: 0 <= i < 36 && !IsHyphenPosition(i) ==> t[i] in {'x', 'y', '4'})
    && t[14] == '4' && t[19] == 'y'
  }

  lemma FallbackTemplateLayout()
    ensures IsVersion4Template(FALLBACK_TEMPLATE)
  {
  }

  /** Filling a template in the version-4 layout always yields a version-4 identifier. */
  lemma FillTemplateVersion4(t: string, rs: seq<Nibble>)
    requires IsVersion4Template(t) && |rs| == Placeholders(t)
    ensures IsVersion4(FillTemplate(t, rs))
  {
  }

  /** The placeholders of a template in order, `x` or `y`, one per random nibble drawn. */
  function Kinds(t: string): (r: string)
    ensures |r| == Placeholders(t)
    ensures forall k :: 0 <= k < |r| ==> r[k] == 'x' || r[k] == 'y'
  {
    if t == [] then []
    else (if t[0] == 'x' || t[0] == 'y' then [t[0]] else []) + Kinds(t[1..])
  }

  /** What survives of each draw: the whole nibble for an `x`, its two low bits for a `y`. */
  function Kept(kinds: string, rs: seq<Nibble>): (r: seq<Nibble>)
    requires |kinds| == |rs|
    ensures |r| == |rs|
  {
    seq(|rs|, k requires 0 <= k < |rs| => if kinds[k] == 'y' then rs[k] & 0x3 else rs[k])
  }

  /**
   * Reads the draws back from a filled template: the value of the digit at each
   * `x`, and the two low bits of the digit at each `y`.
   */
  function ReadTemplate(t: string, id: string): (rs: seq<Nibble>)
    requires |id| == |t|
    requires forall i :: 0 <= i < |t| && (t[i] == 'x' || t[i] == 'y') ==> IsLowerHex(id[i])
    ensures |rs| == Placeholders(t)
  {
    if t == [] then []
    else
      assert forall i :: 0 <= i < |t| - 1 ==> t[1..][i] == t[i + 1] && id[1..][i] == id[i + 1];
      var rest := ReadTemplate(t[1..], id[1..]);
      if t[0] == 'x' then [DigitValue(id[0])] + rest
      else if t[0] == 'y' then [DigitValue(id[0]) & 0x3] + rest
      else rest
  }

  /** Reading a filled template back yields every draw, less the two bits a `y` overwrites. */
  lemma {:induction false} ReadFillTemplate(t: string, rs: seq<Nibble>)
    requires |rs| == Placeholders(t)
    ensures ReadTemplate(t, FillTemplate(t, rs)) == Kept(Kinds(t), rs)
  {
    if t != [] {
      var drawn := t[0] == 'x' || t[0] == 'y';
      var rest := if drawn then rs[1..] else rs;
      var f := FillTemplate(t, rs);
      FillTemplateTail(t, rs);
      ReadFillTemplate(t[1..], rest);
      if drawn {
        ReadFirstDraw(t, rs, f);
        KeptCons(Kinds(t), rs);
      } else {
        assert Kinds(t) == Kinds(t[1..]);
      }
    }
  }

  lemma FillTemplateTail(t: string, rs: seq<Nibble>)
    requires t != [] && |rs| == Placeholders(t)
    ensures var rest := if t[0] == 'x' || t[0] == 'y' then rs[1..] else rs;
      FillTemplate(t, rs)[1..] == FillTemplate(t[1..], rest)
  {
  }

  /** The digit written for the first draw reads back as what `Kept` keeps of it. */
  lemma ReadFirstDraw(t: string, rs: seq<Nibble>, f: string)
    requires t != [] && (t[0] == 'x' || t[0] == 'y') && |rs| == Placeholders(t) && f == FillTemplate(t, rs)
    ensures ReadTemplate(t, f)[0] == (if t[0] == 'y' then rs[0] & 0x3 else rs[0])
  {
    if t[0] == 'x' {
      DigitValueOfHexDigit(rs[0]);
    } else {
      DigitValueOfHexDigit((rs[0] & 0x3) | 0x8);
      assert ((rs[0] & 0x3) | 0x8) & 0x3 == rs[0] & 0x3;
    }
  }

  lemma KeptCons(kinds: string, rs: seq<Nibble>)
    requires |kinds| == |rs| && |rs| > 0
    ensures Kept(kinds, rs) == [Kept(kinds, rs)[0]] + Kept(kinds[1..], rs[1..])
  {
  }

  lemma {:induction false} KindsAppend(a: string, b: string)
    ensures Kinds(a + b) == Kinds(a) + Kinds(b)
  {
    if a == [] {
      assert a + b == b;
    } else {
      assert (a + b)[0] == a[0] && (a + b)[1..] == a[1..] + b;
      KindsAppend(a[1..], b);
    }
  }

  lemma {:induction false} KindsOfXs(n: nat)
    ensures Kinds(seq(n, _ => 'x')) == seq(n, _ => 'x')
  {
    if n > 0 {
      assert seq(n, _ => 'x')[1..] == seq(n - 1, _ => 'x');
      KindsOfXs(n - 1);
      assert ['x'] + seq(n - 1, _ => 'x') == seq(n, _ => 'x');
    }
  }

  /** The fallback template draws fifteen `x`, then its one `y`, then fifteen `x`. */
  lemma FallbackKinds()
    ensures Kinds(FALLBACK_TEMPLATE) == seq(15, _ => 'x') + "y" + seq(15, _ => 'x')
  {
    var t := seq(8, _ => 'x') + "-" + seq(4, _ => 'x') + "-4" + seq(3, _ => 'x') + "-y"
             + seq(3, _ => 'x') + "-" + seq(12, _ => 'x');
    TemplateLayout(t);
    KindsOfLayout(t);
  }

  lemma KindsOfSeparators()
    ensures Kinds("-") == [] && Kinds("-4") == [] && Kinds("-y") == "y"
  {
    assert "-"[1..] == [];
    assert "-4"[1..] == "4" && "4"[1..] == [];
    assert "-y"[1..] == "y" && "y"[1..] == [];
  }

  lemma KindsOfLayout(t: string)
    requires t == seq(8, _ => 'x') + "-" + seq(4, _ => 'x') + "-4" + seq(3, _ => 'x') + "-y"
                  + seq(3, _ => 'x') + "-" + seq(12, _ => 'x')
    ensures Kinds(t) == seq(15, _ => 'x') + "y" + seq(15, _ => 'x')
  {
    var x3, x4, x8, x12 := seq(3, _ => 'x'), seq(4, _ => 'x'), seq(8, _ => 'x'), seq(12, _ => 'x');
    KindsOfXs(3); KindsOfXs(4); KindsOfXs(8); KindsOfXs(12);
    KindsOfSeparators();
    var x15 := seq(15, _ => 'x');
    var t1 := x8 + "-";   KindsAppend(x8, "-");
    assert Kinds(t1) == x8;
    var t2 := t1 + x4;    KindsAppend(t1, x4);
    var t3 := t2 + "-4";  KindsAppend(t2, "-4");
    assert Kinds(t3) == x8 + x4;
    var t4 := t3 + x3;    KindsAppend(t3, x3);
    assert Kinds(t4) == x15;
    var t5 := t4 + "-y";  KindsAppend(t4, "-y");
    assert Kinds(t5) == x15 + "y";
    var t6 := t5 + x3;    KindsAppend(t5, x3);
    var t7 := t6 + "-";   KindsAppend(t6, "-");
    assert Kinds(t7) == x15 + "y" + x3;
    KindsAppend(t7, x12);
    assert t == t7 + x12;
    assert Kinds(t) == (x15 + "y" + x3) + x12;
    assert x3 + x12 == x15;
  }

  /** Equal fills of one template have equal kept draws. */
  lemma FillDeterminesKept(t: string, a: seq<Nibble>, b: seq<Nibble>)
    requires |a| == Placeholders(t) && |b| == Placeholders(t)
    requires FillTemplate(t, a) == FillTemplate(t, b)
    ensures Kept(Kinds(t), a) == Kept(Kinds(t), b)
  {
    ReadFillTemplate(t, a);
    ReadFillTemplate(t, b);
  }

  lemma KeptOfFallback(kinds: string, a: seq<Nibble>, b: seq<Nibble>)
    requires kinds == seq(15, _ => 'x') + "y" + seq(15, _ => 'x')
    requires |a| == 31 && |b| == 31 && Kept(kinds, a) == Kept(kinds, b)
    ensures forall k :: 0 <= k < 31 && k != 15 ==> a[k] == b[k]
    ensures a[15] & 0x3 == b[15] & 0x3
  {
    forall k | 0 <= k < 31 && k != 15
      ensures a[k] == b[k]
    {
      assert kinds[k] == 'x';
      assert Kept(kinds, a)[k] == Kept(kinds, b)[k];
    }
    assert kinds[15] == 'y';
    assert Kept(kinds, a)[15] == Kept(kinds, b)[15];
  }

  /**
   * Two weak-path identifiers are equal only if the draws agree: all thirty `x`
   * nibbles in full, and the `y` nibble (draw 15) in its two low bits.
   */
  lemma FallbackDeterminedByNibbles(a: seq<Nibble>, b: seq<Nibble>)
    requires |a| == 31 && |b| == 31 && FallbackUuid(a) == FallbackUuid(b)
    ensures forall k :: 0 <= k < 31 && k != 15 ==> a[k] == b[k]
    ensures a[15] & 0x3 == b[15] & 0x3
  {
    FallbackPlaceholders();
    FillDeterminesKept(FALLBACK_TEMPLATE, a, b);
    FallbackKinds();
    KeptOfFallback(Kinds(FALLBACK_TEMPLATE), a, b);
  }

  /** The weak path: the template filled from thirty-one random nibbles. */
  function FallbackUuid(rs: seq<Nibble>): (id: string)
    requires |rs| == 31
    ensures IsVersion4(id)
  {
    FallbackPlaceholders();
    FallbackTemplateLayout();
    FillTemplateVersion4(FALLBACK_TEMPLATE, rs);
    FillTemplate(FALLBACK_TEMPLATE, rs)
  }
}
