/** \u escapes and UTF-8 as numbers: hexadecimal digits by their place in a table, surrogate
    pairs and multi-byte characters by division. */
module JsonEscapes {
  import opened Bytes
  import opened JsonStrings
  import Utf8

  const LOWER_HEX: string := "0123456789abcdef"
  const UPPER_HEX: string := "0123456789ABCDEF"

  /** The first place of c in the table from i on, or its length. */
  function PlaceFrom(table: string, c: byte, i: nat): (r: nat)
    requires i <= |table|
    ensures i <= r <= |table| && (r < |table| ==> table[r] as int == Num(c))
    ensures forall k | i <= k < r :: table[k] as int != Num(c)
    decreases |table| - i
  {
    if i == |table| || table[i] as int == Num(c) then i else PlaceFrom(table, c, i + 1)
  }

  /** The value of a hexadecimal digit, in either case; 16 for any other byte. */
  function HexPlace(c: byte): (r: nat)
    ensures r <= 16
  {
    var lower := PlaceFrom(LOWER_HEX, c, 0);
    if lower < 16 then lower else PlaceFrom(UPPER_HEX, c, 0)
  }

  // ----- digits -----

  lemma HexTables(k: nat)
    requires k < 16
    ensures |LOWER_HEX| == |UPPER_HEX| == 16
    ensures LOWER_HEX[k] as int == if k < 10 then 48 + k else 87 + k
    ensures UPPER_HEX[k] as int == if k < 10 then 48 + k else 55 + k
  {
  }

  lemma HexRange(c: byte)
    ensures IsHex(c) <==> 48 <= Num(c) <= 57 || 97 <= Num(c) <= 102 || 65 <= Num(c) <= 70
    ensures IsHex(c) ==>
      Num32(HexDigit(c)) == if Num(c) <= 57 then Num(c) - 48 else if Num(c) >= 97 then Num(c) - 87 else Num(c) - 55
  {
  }

  /** The code takes exactly the digits of the table, at their places. */
  lemma HexByTable(c: byte)
    ensures IsHex(c) <==> HexPlace(c) < 16
    ensures IsHex(c) ==> Num32(HexDigit(c)) == HexPlace(c)
  {
    hide IsHex;
    hide HexDigit;
    hide Num;
    hide Num32;
    hide PlaceFrom;
    HexRange(c);
    var n := Num(c);
    var lower := PlaceFrom(LOWER_HEX, c, 0);
    HexTables(0);
    if lower < 16 { HexTables(lower); }
    var upper := PlaceFrom(UPPER_HEX, c, 0);
    if upper < 16 { HexTables(upper); }
    if 48 <= n <= 57 {
      HexTables(n - 48);
    } else if 97 <= n <= 102 {
      HexTables(n - 87);
    } else if 65 <= n <= 70 {
      HexTables(n - 55);
    }
  }

  // ----- four digits -----

  lemma TwoBytes32(hi: byte, lo: byte)
    ensures Num32(((hi as bv32) << 8) | (lo as bv32)) == 256 * Num(hi) + Num(lo)
  {
  }

  lemma Nibbles(a: bv32, b: bv32) returns (x: byte)
    requires a < 16 && b < 16
    ensures x as bv32 == (a << 4) | b && Num(x) == 16 * Num32(a) + Num32(b)
  {
    x := ((a << 4) | b) as byte;
    NibbleParts(a, b, x);
  }

  lemma NibbleParts(a: bv32, b: bv32, x: byte)
    requires a < 16 && b < 16 && x as bv32 == (a << 4) | b
    ensures Num(x) == 16 * Num32(a) + Num32(b)
  {
    assert x >> 4 == a as byte && x & 0xF == b as byte;
    LowFour(x);
    Narrow(a);
    Narrow(b);
  }

  lemma Narrow(a: bv32)
    requires a < 16
    ensures Num32(a) == Num(a as byte)
  {
  }

  lemma Digit16(c: byte)
    requires IsHex(c)
    ensures HexDigit(c) < 16 && Num32(HexDigit(c)) == HexPlace(c)
  {
    HexByTable(c);
    hide HexPlace;
  }

  /** The number four hexadecimal digits write. */
  function CodeUnit(a: byte, b: byte, c: byte, d: byte): nat {
    4096 * HexPlace(a) + 256 * HexPlace(b) + 16 * HexPlace(c) + HexPlace(d)
  }

  lemma FourDigitsMean(a: byte, b: byte, c: byte, d: byte)
    requires IsHex(a) && IsHex(b) && IsHex(c) && IsHex(d)
    ensures Num32(FourDigits(a, b, c, d)) == CodeUnit(a, b, c, d)
  {
    hide IsHex;
    hide HexDigit;
    hide HexPlace;
    hide Num32;
    hide Num;
    Digit16(a);
    Digit16(b);
    Digit16(c);
    Digit16(d);
    Number16(HexDigit(a), HexDigit(b), HexDigit(c), HexDigit(d));
  }

  lemma Number16(a: bv32, b: bv32, c: bv32, d: bv32)
    requires a < 16 && b < 16 && c < 16 && d < 16
    ensures Num32((a << 12) | (b << 8) | (c << 4) | d) ==
            4096 * Num32(a) + 256 * Num32(b) + 16 * Num32(c) + Num32(d)
  {
    hide Num32;
    hide Num;
    var hi := Nibbles(a, b);
    var lo := Nibbles(c, d);
    TwoBytes32(hi, lo);
    FourNibbles(a, b, c, d, hi, lo);
  }

  lemma FourNibbles(a: bv32, b: bv32, c: bv32, d: bv32, hi: byte, lo: byte)
    requires a < 16 && b < 16 && c < 16 && d < 16
    requires hi as bv32 == (a << 4) | b && lo as bv32 == (c << 4) | d
    ensures (a << 12) | (b << 8) | (c << 4) | d == ((hi as bv32) << 8) | (lo as bv32)
  {
  }

  /** parse_utf16_hex succeeds exactly on four digits of the table, with the number they
      write. */
  lemma Hex4Means(s: seq<byte>, i: nat)
    ensures var a, b, c, d := At(s, i), At(s, i + 1), At(s, i + 2), At(s, i + 3);
      && (Hex4(s, i).Some? <==> HexPlace(a) < 16 && HexPlace(b) < 16 && HexPlace(c) < 16 && HexPlace(d) < 16)
      && (Hex4(s, i).Some? ==> Num32(Hex4(s, i).value) == CodeUnit(a, b, c, d))
  {
    hide IsHex;
    hide HexPlace;
    hide FourDigits;
    hide Num32;
    var a, b, c, d := At(s, i), At(s, i + 1), At(s, i + 2), At(s, i + 3);
    HexByTable(a);
    HexByTable(b);
    HexByTable(c);
    HexByTable(d);
    if Hex4(s, i).Some? { FourDigitsMean(a, b, c, d); }
  }

  // ----- surrogate pairs -----

  lemma Ten(x: bv32)
    requires x <= 0xFFFFF
    ensures Num32(x) == 1024 * Num32(x >> 10) + Num32(x & 0x3FF)
  {
  }

  lemma Minus(x: bv32)
    requires x <= 0xFFFF
    ensures x >= 0xD800 ==> Num32(x - 0xD800) == Num32(x) - 0xD800
    ensures x >= 0xDC00 ==> Num32(x - 0xDC00) == Num32(x) - 0xDC00
  {
  }

  lemma PlusPlane(x: bv32)
    requires x <= 0xFFFFF
    ensures Num32(x + 0x10000) == Num32(x) + 0x10000
  {
  }

  lemma PairBits(lead: bv32, trail: bv32, x: bv32)
    requires IsLead(lead) && 0xDC00 <= trail <= 0xDFFF
    requires x == (((lead - 0xD800) & 0x3FF) << 10) | ((trail - 0xDC00) & 0x3FF)
    ensures x <= 0xFFFFF && x >> 10 == lead - 0xD800 && x & 0x3FF == trail - 0xDC00
  {
  }

  /** A surrogate pair stands for the character section 2.2 of RFC 2781 gives it. */
  lemma PairMeans(lead: bv32, trail: bv32)
    requires IsLead(lead) && 0xDC00 <= trail <= 0xDFFF
    ensures Num32(Combine(lead, trail)) == 0x10000 + 1024 * (Num32(lead) - 0xD800) + (Num32(trail) - 0xDC00)
  {
    var x := (((lead - 0xD800) & 0x3FF) << 10) | ((trail - 0xDC00) & 0x3FF);
    PairBits(lead, trail, x);
    Ten(x);
    Minus(lead);
    Minus(trail);
    PlusPlane(x);
    hide IsLead;
  }

  // ----- an escape for every character -----

  predicate ScalarNumber(n: nat) {
    n <= 0x10FFFF && !(0xD800 <= n <= 0xDFFF)
  }

  function HexByte(d: nat): (c: byte)
    requires d < 16
    ensures HexPlace(c) == d
  {
    var c := if d < 10 then 0x30 + (d as byte) else 0x57 + (d as byte);
    HexByteNumber(d, c);
    HexTables(d);
    PlaceOfHex(c, d);
    c
  }

  lemma HexByteNumber(d: nat, c: byte)
    requires d < 16 && c == if d < 10 then 0x30 + (d as byte) else 0x57 + (d as byte)
    ensures Num(c) == if d < 10 then 48 + d else 87 + d
  {
  }

  lemma PlaceOfHex(c: byte, d: nat)
    requires d < |LOWER_HEX| == 16 && LOWER_HEX[d] as int == Num(c)
    ensures HexPlace(c) == d
  {
    hide PlaceFrom;
    hide Num;
    var k := PlaceFrom(LOWER_HEX, c, 0);
    HexTables(d);
    if k < 16 { HexTables(k); }
  }

  function HexText(n: nat): (r: seq<byte>)
    requires n < 65536
    ensures |r| == 4
  {
    [HexByte(n / 4096), HexByte(n / 256 % 16), HexByte(n / 16 % 16), HexByte(n % 16)]
  }

  const ESCAPE: seq<byte> := [0x5C, 0x75]

  /** The escape of section 7 of RFC 8259 for a character: one, or a surrogate pair. */
  function EscapeText(n: nat): seq<byte>
    requires ScalarNumber(n)
  {
    if n < 0x10000 then ESCAPE + HexText(n)
    else ESCAPE + HexText(0xD800 + (n - 0x10000) / 1024) + ESCAPE + HexText(0xDC00 + (n - 0x10000) % 1024)
  }

  lemma HexTextReads(s: seq<byte>, i: nat, n: nat)
    requires n < 65536 && Has(s, i, HexText(n))
    ensures Hex4(s, i).Some? && Num32(Hex4(s, i).value) == n
  {
    hide Hex4;
    hide HexPlace;
    hide HexByte;
    hide Has;
    hide At;
    hide Num32;
    HasAt(s, i, HexText(n), 0);
    HasAt(s, i, HexText(n), 1);
    HasAt(s, i, HexText(n), 2);
    HasAt(s, i, HexText(n), 3);
    Hex4Means(s, i);
    HexDigitsOf(n);
  }

  lemma HexDigitsOf(n: nat)
    ensures n == 4096 * (n / 4096) + 256 * (n / 256 % 16) + 16 * (n / 16 % 16) + n % 16
  {
    assert n / 16 / 16 == n / 256 && n / 256 / 16 == n / 4096;
  }

  lemma Ranges(cp: bv32)
    ensures cp < 0xD800 <==> Num32(cp) < 0xD800
    ensures cp > 0xDFFF <==> Num32(cp) > 0xDFFF
    ensures IsLead(cp) <==> 0xD800 <= Num32(cp) <= 0xDBFF
    ensures cp < 0xDC00 <==> Num32(cp) < 0xDC00
  {
  }

  /** The escape written for any character is read back as that character. */
  lemma EscapeReadsBack(s: seq<byte>, p: nat, n: nat)
    requires ScalarNumber(n) && Has(s, p, EscapeText(n))
    ensures Utf16(s, p + 1).Escape?
    ensures Num32(Utf16(s, p + 1).codePoint) == n && Utf16(s, p + 1).next == p + |EscapeText(n)|
  {
    hide Hex4;
    hide HexText;
    hide Has;
    hide At;
    hide IsLead;
    hide Combine;
    hide Num32;
    if n < 0x10000 {
      HasConcat(s, p, ESCAPE, HexText(n));
      HexTextReads(s, p + 2, n);
      Ranges(Hex4(s, p + 2).value);
    } else {
      var lead, trail := 0xD800 + (n - 0x10000) / 1024, 0xDC00 + (n - 0x10000) % 1024;
      HasConcat(s, p, ESCAPE + HexText(lead) + ESCAPE, HexText(trail));
      HasConcat(s, p, ESCAPE + HexText(lead), ESCAPE);
      HasConcat(s, p, ESCAPE, HexText(lead));
      HasAt(s, p + 6, ESCAPE, 0);
      HasAt(s, p + 6, ESCAPE, 1);
      HexTextReads(s, p + 2, lead);
      HexTextReads(s, p + 8, trail);
      Ranges(Hex4(s, p + 2).value);
      Ranges(Hex4(s, p + 8).value);
      PairMeans(Hex4(s, p + 2).value, Hex4(s, p + 8).value);
    }
  }

  // ----- UTF-8 -----

  /** The bytes of a character by the table in section 3 of RFC 3629, as numbers. */
  function Octets(n: nat): seq<nat> {
    if n < 0x80 then [n]
    else if n < 0x800 then [0xC0 + n / 64, 0x80 + n % 64]
    else if n < 0x10000 then [0xE0 + n / 4096, 0x80 + n / 64 % 64, 0x80 + n % 64]
    else [0xF0 + n / 262144, 0x80 + n / 4096 % 64, 0x80 + n / 64 % 64, 0x80 + n % 64]
  }

  function Numbers(s: seq<byte>): seq<nat> {
    seq(|s|, i requires 0 <= i < |s| => Num(s[i]))
  }

  lemma Twelve(x: bv32)
    requires x <= 0x1FFFFF
    ensures Num32(x) == 4096 * Num32(x >> 12) + Num32(x & 0xFFF)
  {
  }

  lemma Six(x: bv32)
    requires x <= 0xFFF
    ensures Num32(x) == 64 * Num32(x >> 6) + Num32(x & 0x3F) && Num32(x & 0x3F) < 64
  {
  }

  lemma Tagged(y: bv32)
    ensures y < 128 ==> Num(y as byte) == Num32(y)
    ensures y < 64 ==> Num((y | 0x80) as byte) == 0x80 + Num32(y)
    ensures y < 32 ==> Num((y | 0xC0) as byte) == 0xC0 + Num32(y)
    ensures y < 16 ==> Num((y | 0xE0) as byte) == 0xE0 + Num32(y)
    ensures y < 8 ==> Num((y | 0xF0) as byte) == 0xF0 + Num32(y)
  {
  }

  lemma Divisions(n: nat, a: nat, b: nat, c: nat, d: nat)
    requires n == 4096 * (64 * a + b) + (64 * c + d) && b < 64 && c < 64 && d < 64
    ensures d == n % 64 && c == n / 64 % 64 && b == n / 4096 % 64 && 64 * a + b == n / 4096 && a == n / 262144
    ensures n < 4096 ==> c == n / 64
  {
    assert n / 64 == 64 * (64 * a + b) + c;
    assert n / 4096 / 64 == n / 262144;
  }

  lemma SixBits(cp: bv32)
    requires cp <= 0x10FFFF
    ensures (cp & 0xFFF) >> 6 == (cp >> 6) & 0x3F && (cp & 0xFFF) & 0x3F == cp & 0x3F
    ensures (cp >> 12) >> 6 == cp >> 18 && cp >> 12 <= 0xFFF && cp & 0xFFF <= 0xFFF
    ensures cp < 0x800 ==> cp >> 6 == (cp >> 6) & 0x3F
  {
  }

  lemma Small(y: bv32)
    requires y < 64
    ensures Num32(y) < 64
  {
  }

  lemma SixParts(cp: bv32)
    requires cp <= 0x10FFFF
    ensures var n := Num32(cp);
      && Num32(cp & 0x3F) == n % 64 && Num32((cp >> 6) & 0x3F) == n / 64 % 64
      && Num32((cp >> 12) & 0x3F) == n / 4096 % 64 && Num32(cp >> 12) == n / 4096 && Num32(cp >> 18) == n / 262144
      && (cp < 0x800 ==> Num32(cp >> 6) == n / 64)
  {
    hide Num32;
    SixBits(cp);
    Twelve(cp);
    Six(cp >> 12);
    Six(cp & 0xFFF);
    Masks(cp);
    Small((cp >> 6) & 0x3F);
    SizeRanges(cp);
    Divisions(Num32(cp), Num32(cp >> 18), Num32((cp >> 12) & 0x3F), Num32((cp >> 6) & 0x3F), Num32(cp & 0x3F));
  }

  lemma SizeRanges(cp: bv32)
    ensures cp < 0x80 <==> Num32(cp) < 0x80
    ensures cp < 0x800 <==> Num32(cp) < 0x800
    ensures cp < 0x10000 <==> Num32(cp) < 0x10000
  {
  }

  lemma Masks(cp: bv32)
    requires cp <= 0x10FFFF
    ensures cp < 0x800 ==> (cp >> 6) & 0x1F == cp >> 6 && cp >> 6 < 32
    ensures cp < 0x10000 ==> (cp >> 12) & 0x0F == cp >> 12 && cp >> 12 < 16
    ensures (cp >> 18) & 0x07 == cp >> 18 && cp >> 18 < 8
    ensures cp & 0x3F < 64 && (cp >> 6) & 0x3F < 64 && (cp >> 12) & 0x3F < 64
  {
  }

  /** The encoder writes the bytes of the table. */
  lemma EncodeMeans(cp: bv32)
    requires Utf8.Scalar(cp)
    ensures Numbers(Utf8.Encode(cp)) == Octets(Num32(cp))
  {
    hide Num32;
    hide Num;
    SixParts(cp);
    SizeRanges(cp);
    var n := Num32(cp);
    if cp < 0x80 {
      Tagged(cp);
    } else if cp < 0x800 {
      EncodeTwoMeans(cp);
    } else if cp < 0x10000 {
      EncodeThreeMeans(cp);
    } else {
      EncodeFourMeans(cp);
    }
    assert Numbers(Utf8.Encode(cp)) == Octets(n);
  }

  lemma EncodeTwoMeans(cp: bv32)
    requires 0x80 <= cp < 0x800
    ensures Num((((cp >> 6) & 0x1F) | 0xC0) as byte) == 0xC0 + Num32(cp >> 6)
    ensures Num(((cp & 0x3F) | 0x80) as byte) == 0x80 + Num32(cp & 0x3F)
  {
    hide Num32;
    hide Num;
    Masks(cp);
    Tagged(cp >> 6);
    Tagged(cp & 0x3F);
  }

  lemma EncodeThreeMeans(cp: bv32)
    requires cp < 0x10000
    ensures Num((((cp >> 12) & 0x0F) | 0xE0) as byte) == 0xE0 + Num32(cp >> 12)
    ensures Num((((cp >> 6) & 0x3F) | 0x80) as byte) == 0x80 + Num32((cp >> 6) & 0x3F)
    ensures Num(((cp & 0x3F) | 0x80) as byte) == 0x80 + Num32(cp & 0x3F)
  {
    hide Num32;
    hide Num;
    Masks(cp);
    Tagged(cp >> 12);
    Tagged((cp >> 6) & 0x3F);
    Tagged(cp & 0x3F);
  }

  lemma EncodeFourMeans(cp: bv32)
    requires cp <= 0x10FFFF
    ensures Num((((cp >> 18) & 0x07) | 0xF0) as byte) == 0xF0 + Num32(cp >> 18)
    ensures Num((((cp >> 12) & 0x3F) | 0x80) as byte) == 0x80 + Num32((cp >> 12) & 0x3F)
    ensures Num((((cp >> 6) & 0x3F) | 0x80) as byte) == 0x80 + Num32((cp >> 6) & 0x3F)
    ensures Num(((cp & 0x3F) | 0x80) as byte) == 0x80 + Num32(cp & 0x3F)
  {
    hide Num32;
    hide Num;
    Masks(cp);
    Tagged(cp >> 18);
    Tagged((cp >> 12) & 0x3F);
    Tagged((cp >> 6) & 0x3F);
    Tagged(cp & 0x3F);
  }

  /** The character that the digits of an escape with its u at i write. */
  function Written(s: seq<byte>, i: nat, pair: bool): int {
    var lead := CodeUnit(At(s, i + 1), At(s, i + 2), At(s, i + 3), At(s, i + 4));
    var trail := CodeUnit(At(s, i + 7), At(s, i + 8), At(s, i + 9), At(s, i + 10));
    if pair then 0x10000 + 1024 * (lead - 0xD800) + (trail - 0xDC00) else lead
  }

  /** Every escape that parse_utf16 takes is written out as the bytes of the character that
      its digits name. */
  lemma EscapeMeans(s: seq<byte>, i: nat)
    requires Utf16(s, i).Escape?
    ensures var esc := Utf16(s, i); var n := Written(s, i, esc.next != i + 5);
      esc.next in {i + 5, i + 11} && Num32(esc.codePoint) == n && Numbers(Utf8.Encode(esc.codePoint)) == Octets(n)
  {
    hide CodeUnit;
    hide Num32;
    hide Combine;
    hide FourDigits;
    hide Octets;
    hide Numbers;
    hide IsHex;
    hide HexPlace;
    EscapesAreUtf8(s, i);
    EncodeMeans(Utf16(s, i).codePoint);
    Hex4Means(s, i + 1);
    if Utf16(s, i).next != i + 5 {
      Hex4Means(s, i + 7);
      PairMeans(Hex4(s, i + 1).value, Hex4(s, i + 7).value);
    }
  }
}
