/** Quoted strings against the grammar of RFC 8259: process_string takes exactly its strings,
    as the bytes they stand for. */
module JsonExactStrings {
  import opened Options
  import opened Bytes
  import opened JsonStrings
  import opened JsonPrint
  import opened JsonScanner
  import opened JsonEscapes
  import opened JsonText
  import Utf8

  // ----- characters -----

  lemma ShortTable(k: nat)
    requires k < 8
    ensures |SHORT_LETTERS| == |SHORT_BYTES| == 8
    ensures SHORT_LETTERS[k] as int == [0x22, 0x5C, 0x2F, 0x62, 0x66, 0x6E, 0x72, 0x74][k]
  {
  }

  lemma ShortCodes(c: byte)
    ensures c == 0x22 <==> Num(c) == 0x22
    ensures c == 0x5C <==> Num(c) == 0x5C
    ensures c == 0x2F <==> Num(c) == 0x2F
    ensures c == 0x62 <==> Num(c) == 0x62
    ensures c == 0x66 <==> Num(c) == 0x66
    ensures c == 0x6E <==> Num(c) == 0x6E
    ensures c == 0x72 <==> Num(c) == 0x72
    ensures c == 0x74 <==> Num(c) == 0x74
  {
  }

  /** The two-character escapes of the code are those of the table. */
  lemma ShortByTable(c: byte)
    ensures PlaceFrom(SHORT_LETTERS, c, 0) < 8 <==> Plain(c).Some?
    ensures Plain(c).Some? ==> c != LOWER_U && c != 0 && Plain(c).value == SHORT_BYTES[PlaceFrom(SHORT_LETTERS, c, 0)]
  {
    hide PlaceFrom;
    hide Num;
    ShortCodes(c);
    ShortTable(0);
    ShortTable(1);
    ShortTable(2);
    ShortTable(3);
    ShortTable(4);
    ShortTable(5);
    ShortTable(6);
    ShortTable(7);
    var k := PlaceFrom(SHORT_LETTERS, c, 0);
    if k < 8 { ShortTable(k); }
  }

  lemma HexBytes(s: seq<byte>, i: nat, h: seq<byte>)
    requires IsHex4(h) && Has(s, i, h)
    ensures Hex4(s, i).Some? && Num32(Hex4(s, i).value) == UnitOf(h)
  {
    hide HexPlace;
    hide Hex4;
    hide Num32;
    hide Bits32;
    hide At;
    hide Has;
    HasAt(s, i, h, 0);
    HasAt(s, i, h, 1);
    HasAt(s, i, h, 2);
    HasAt(s, i, h, 3);
    Hex4Means(s, i);
  }

  lemma SingleReads(s: seq<byte>, p: nat, ch: Char)
    requires ch.Single? && ValidChar(ch) && Has(s, p, CharText(ch))
    ensures At(s, p) == BACKSLASH && At(s, p + 1) == LOWER_U && Hex4(s, p + 2).Some?
    ensures Utf16(s, p + 1) == Escape(Bits32(CodePoint(ch)), p + 6)
  {
    hide HexPlace;
    hide Hex4;
    hide Num32;
    hide Bits32;
    hide At;
    hide Has;
    hide IsLead;
    hide CodeUnit;
    HasConcat(s, p, [0x5C, 0x75], ch.h);
    HasAt(s, p, [0x5C, 0x75], 0);
    HasAt(s, p, [0x5C, 0x75], 1);
    HexBytes(s, p + 2, ch.h);
    var cp := Hex4(s, p + 2).value;
    Ranges(cp);
    BackToBits(cp, UnitOf(ch.h));
  }

  lemma PairParts(s: seq<byte>, p: nat, ch: Char)
    requires ch.Surrogates? && |ch.h| == |ch.l| == 4 && Has(s, p, CharText(ch))
    ensures At(s, p) == BACKSLASH && At(s, p + 1) == LOWER_U && Has(s, p + 2, ch.h)
    ensures At(s, p + 6) == BACKSLASH && At(s, p + 7) == LOWER_U && Has(s, p + 8, ch.l)
  {
    hide At;
    hide Has;
    var u: seq<byte> := [0x5C, 0x75];
    HasConcat(s, p, u + ch.h + u, ch.l);
    HasConcat(s, p, u + ch.h, u);
    HasConcat(s, p, u, ch.h);
    HasAt(s, p, u, 0);
    HasAt(s, p, u, 1);
    HasAt(s, p + 6, u, 0);
    HasAt(s, p + 6, u, 1);
  }

  lemma PairReads(s: seq<byte>, p: nat, ch: Char)
    requires ch.Surrogates? && ValidChar(ch) && Has(s, p, CharText(ch))
    ensures At(s, p) == BACKSLASH && At(s, p + 1) == LOWER_U && Hex4(s, p + 2).Some?
    ensures At(s, p + 6) == BACKSLASH && At(s, p + 7) == LOWER_U && Hex4(s, p + 8).Some?
    ensures CodePoint(ch) <= 0x10FFFF && Utf16(s, p + 1) == Escape(Bits32(CodePoint(ch)), p + 12)
  {
    hide HexPlace;
    hide Hex4;
    hide Num32;
    hide Bits32;
    hide At;
    hide Has;
    hide IsLead;
    hide Combine;
    hide CodeUnit;
    hide CharText;
    PairParts(s, p, ch);
    HexBytes(s, p + 2, ch.h);
    HexBytes(s, p + 8, ch.l);
    var lead, trail := Hex4(s, p + 2).value, Hex4(s, p + 8).value;
    PairCode(lead, trail);
    BackToBits(Combine(lead, trail), CodePoint(ch));
  }

  lemma PairCode(lead: bv32, trail: bv32)
    requires 0xD800 <= Num32(lead) <= 0xDBFF && 0xDC00 <= Num32(trail) <= 0xDFFF
    ensures IsLead(lead) && 0xD800 <= lead <= 0xDFFF && 0xDC00 <= trail <= 0xDFFF
    ensures Num32(Combine(lead, trail)) == 0x10000 + 1024 * (Num32(lead) - 0xD800) + (Num32(trail) - 0xDC00)
  {
    hide IsLead;
    hide Combine;
    hide Num32;
    Ranges(lead);
    Ranges(trail);
    PairMeans(lead, trail);
  }

  /** Both scans read a character of the grammar as the grammar says. */
  lemma CharReads(s: seq<byte>, p: nat, ch: Char)
    requires ValidChar(ch) && Has(s, p, CharText(ch))
    ensures NextPiece(s, p) == Piece(CharBytes(ch), p + |CharText(ch)|)
    ensures Closing(s, p) == Closing(s, p + |CharText(ch)|)
    ensures At(s, p) != 0
  {
    hide HexPlace;
    hide Hex4;
    hide Num32;
    hide Bits32;
    hide Utf16;
    hide CodePoint;
    hide Utf8.Encode;
    hide PlaceFrom;
    match ch
    case Raw(c) =>
      HasAt(s, p, [c], 0);
    case Short(letter) =>
      HasAt(s, p, [0x5C, letter], 0);
      HasAt(s, p, [0x5C, letter], 1);
      ShortByTable(letter);
    case Single(h) =>
      hide Closing;
      SingleReads(s, p, ch);
      SkipEscape(s, p);
      Hex4IsOrdinary(s, p + 2);
    case Surrogates(h, l) =>
      hide Closing;
      PairReads(s, p, ch);
      SkipEscape(s, p);
      Hex4IsOrdinary(s, p + 2);
      SkipEscape(s, p + 6);
      Hex4IsOrdinary(s, p + 8);
  }

  lemma HexRead(s: seq<byte>, i: nat) returns (h: seq<byte>)
    requires Hex4(s, i).Some?
    ensures IsHex4(h) && Has(s, i, h) && Num32(Hex4(s, i).value) == UnitOf(h)
  {
    hide HexPlace;
    Hex4Means(s, i);
    HexInside(s, i);
    h := s[i..i + 4];
  }

  lemma HexInside(s: seq<byte>, i: nat)
    requires Hex4(s, i).Some?
    ensures i + 4 <= |s|
  {
    NulIsNotHex();
    hide IsHex;
  }

  /** Whatever the loop of process_string takes is a character of the grammar. */
  lemma PieceIsChar(s: seq<byte>, p: nat) returns (ch: Char)
    requires NextPiece(s, p).Piece? && At(s, p) != QUOTE && At(s, p) != 0
    ensures ValidChar(ch) && Has(s, p, CharText(ch))
  {
    hide HexPlace;
    hide Hex4;
    hide Num32;
    hide Bits32;
    hide Utf8.Encode;
    hide PlaceFrom;
    hide CodeUnit;
    var c, d := At(s, p), At(s, p + 1);
    if c != BACKSLASH {
      ch := Raw(c);
    } else if d != LOWER_U {
      ch := Short(d);
      ShortByTable(d);
    } else {
      ch := EscapeIsChar(s, p);
    }
  }

  lemma EscapeIsChar(s: seq<byte>, p: nat) returns (ch: Char)
    requires At(s, p) == BACKSLASH && At(s, p + 1) == LOWER_U && Utf16(s, p + 1).Escape?
    ensures ValidChar(ch) && Has(s, p, CharText(ch))
  {
    hide HexPlace;
    hide Hex4;
    hide Num32;
    hide Bits32;
    hide IsLead;
    hide Combine;
    hide CodeUnit;
    var h := HexRead(s, p + 2);
    var cp := Hex4(s, p + 2).value;
    Ranges(cp);
    var u: seq<byte> := [0x5C, 0x75];
    assert Has(s, p, u);
    HasConcat(s, p, u, h);
    if cp < 0xD800 || cp > 0xDFFF {
      ch := Single(h);
    } else {
      var l := HexRead(s, p + 8);
      Ranges(Hex4(s, p + 8).value);
      assert Has(s, p + 6, u);
      HasConcat(s, p, u + h, u);
      HasConcat(s, p, u + h + u, l);
      ch := Surrogates(h, l);
    }
  }

  // ----- strings -----

  lemma {:induction false} CharsRead(s: seq<byte>, p: nat, cs: seq<Char>, done: seq<byte>)
    requires ValidChars(cs) && Has(s, p, CharsText(cs)) && At(s, p + |CharsText(cs)|) == QUOTE
    ensures var e := p + |CharsText(cs)|;
      Closing(s, p) == Some(e) && Process(s, p, e, done) == Processed(done + CharsBytes(cs), e)
    decreases |cs|
  {
    hide CharText;
    hide CharBytes;
    hide NextPiece;
    hide ValidChar;
    hide At;
    hide Has;
    if cs == [] {
      assert done + [] == done;
    } else {
      hide Closing;
      var first, rest := CharText(cs[0]), cs[1..];
      HasConcat(s, p, first, CharsText(rest));
      CharReads(s, p, cs[0]);
      CharNotEmpty(cs[0]);
      CharsRead(s, p + |first|, rest, done + CharBytes(cs[0]));
      assert done + CharBytes(cs[0]) + CharsBytes(rest) == done + CharsBytes(cs);
    }
  }

  lemma CharNotEmpty(ch: Char)
    ensures CharText(ch) != []
  {
  }

  /** A string of the grammar is read as the bytes it stands for. */
  lemma StringReads(s: seq<byte>, i: nat, cs: seq<Char>)
    requires ValidChars(cs) && Has(s, i, StringText(cs))
    ensures Quoted(s, i) == Some((CharsBytes(cs), i + |StringText(cs)|))
  {
    hide CharsText;
    hide CharsBytes;
    hide Closing;
    hide Process;
    hide Has;
    hide At;
    var body := CharsText(cs);
    assert StringText(cs) == [QUOTE] + (body + [QUOTE]);
    HasConcat(s, i, [QUOTE], body + [QUOTE]);
    HasConcat(s, i + 1, body, [QUOTE]);
    HasAt(s, i, [QUOTE], 0);
    HasAt(s, i + 1 + |body|, [QUOTE], 0);
    CharsRead(s, i + 1, cs, []);
    assert [] + CharsBytes(cs) == CharsBytes(cs);
  }

  lemma {:induction false} CharsOf(s: seq<byte>, p: nat, done: seq<byte>) returns (cs: seq<Char>)
    requires Closing(s, p).Some? && Process(s, p, Closing(s, p).value, done).Processed?
    ensures ValidChars(cs) && Has(s, p, CharsText(cs)) && p + |CharsText(cs)| == Closing(s, p).value
    decreases Closing(s, p).value - p
  {
    hide Closing;
    hide NextPiece;
    hide CharText;
    hide ValidChar;
    ClosingBounds(s, p);
    var e := Closing(s, p).value;
    cs := [];
    if p < e {
      PieceKeepsClosing(s, p);
      NotQuote(s, p);
      var ch := PieceIsChar(s, p);
      CharReads(s, p, ch);
      ClosingBounds(s, NextPiece(s, p).next);
      var rest := CharsOf(s, NextPiece(s, p).next, done + NextPiece(s, p).bytes);
      cs := [ch] + rest;
      assert cs[1..] == rest;
      HasConcat(s, p, CharText(ch), CharsText(rest));
    }
  }

  lemma NotQuote(s: seq<byte>, p: nat)
    requires Closing(s, p).Some? && p < Closing(s, p).value
    ensures At(s, p) != QUOTE
  {
  }

  /** Whatever get_quoted_string takes is a string of the grammar. */
  lemma StringOf(s: seq<byte>, i: nat) returns (cs: seq<Char>)
    requires Quoted(s, i).Some?
    ensures ValidChars(cs) && Has(s, i, StringText(cs))
    ensures Quoted(s, i) == Some((CharsBytes(cs), i + |StringText(cs)|))
  {
    hide CharsText;
    hide Closing;
    hide Process;
    hide ValidChars;
    QuoteAtClosing(s, i + 1);
    cs := CharsOf(s, i + 1, []);
    var body := CharsText(cs);
    assert Has(s, i, [QUOTE]) && Has(s, i + 1 + |body|, [QUOTE]);
    HasConcat(s, i + 1, body, [QUOTE]);
    HasConcat(s, i, [QUOTE], body + [QUOTE]);
    assert StringText(cs) == [QUOTE] + (body + [QUOTE]);
    StringReads(s, i, cs);
  }

  // ----- printed strings -----

  lemma LowerHexChar(d: byte)
    requires d < 16
    ensures HexPlace(HexChar(d)) == Num(d) && IsHex(HexChar(d))
  {
    HexCharNumber(d);
    hide HexChar;
    HexTables(Num(d));
    PlaceOfHex(HexChar(d), Num(d));
    HexByTable(HexChar(d));
  }

  lemma HexCharNumber(d: byte)
    requires d < 16
    ensures Num(d) < 16 && Num(HexChar(d)) == if Num(d) < 10 then 48 + Num(d) else 87 + Num(d)
  {
  }

  lemma ControlUnit(c: byte)
    requires c < 0x20
    ensures IsHex4([0x30, 0x30, HexChar(c >> 4), HexChar(c & 0xF)])
    ensures UnitOf([0x30, 0x30, HexChar(c >> 4), HexChar(c & 0xF)]) == Num(c) < 0x20
    ensures Utf8.Encode(Bits32(Num(c))) == [c]
  {
    hide HexChar;
    hide HexPlace;
    hide IsHex;
    LowerHexChar(0);
    ZeroDigit();
    LowerHexChar(c >> 4);
    LowerHexChar(c & 0xF);
    LowFour(c);
    ControlEncoded(c);
  }

  lemma ZeroDigit()
    ensures HexChar(0) == 0x30 && Num(0) == 0
  {
  }

  lemma ControlEncoded(c: byte)
    requires c < 0x20
    ensures Num(c) < 0x20 && Utf8.Encode(Bits32(Num(c))) == [c]
  {
    var x := c as bv32;
    Widened(c);
    BackToBits(x, Num(c));
    hide Bits32;
    assert x as byte == c;
  }

  lemma Widened(c: byte)
    ensures Num32(c as bv32) == Num(c) && (c < 0x20 ==> Num(c) < 0x20)
  {
  }

  lemma ShortLetter(c: byte)
    requires c in SHORT_BYTES
    ensures |EscapeByte(c)| == 2 && EscapeByte(c)[0] == BACKSLASH && Plain(EscapeByte(c)[1]) == Some(c)
  {
    hide HexChar;
  }

  lemma ShortChar(c: byte) returns (ch: Char)
    requires c in SHORT_BYTES
    ensures ch.Short? && ValidChar(ch) && CharText(ch) == EscapeByte(c) && CharBytes(ch) == [c]
  {
    hide PlaceFrom;
    hide HexChar;
    var letter := EscapeByte(c)[1];
    ch := Short(letter);
    ShortLetter(c);
    ShortByTable(letter);
  }

  /** How a byte is printed: a short escape where there is one, a \u escape for any other
      control character, and as it is otherwise. */
  lemma PrintedChar(c: byte) returns (ch: Char)
    ensures ValidChar(ch) && CharText(ch) == EscapeByte(c) && CharBytes(ch) == [c]
    ensures ch.Short? <==> c in SHORT_BYTES
    ensures ch.Raw? <==> c !in SHORT_BYTES && c >= 0x20
    ensures !ch.Surrogates?
  {
    hide HexChar;
    hide HexPlace;
    hide PlaceFrom;
    hide Utf8.Encode;
    hide Bits32;
    if c in SHORT_BYTES {
      ch := ShortChar(c);
    } else if c < 0x20 {
      ch := Single([0x30, 0x30, HexChar(c >> 4), HexChar(c & 0xF)]);
      ControlUnit(c);
    } else {
      ch := Raw(c);
    }
  }

  lemma {:induction false} CharsSnoc(cs: seq<Char>, ch: Char)
    requires ValidChars(cs) && ValidChar(ch)
    ensures ValidChars(cs + [ch])
    ensures CharsText(cs + [ch]) == CharsText(cs) + CharText(ch)
    ensures CharsBytes(cs + [ch]) == CharsBytes(cs) + CharBytes(ch)
  {
    hide CharText;
    hide CharBytes;
    hide ValidChar;
    if cs == [] {
      assert cs + [ch] == [ch] && [ch][1..] == [];
    } else {
      assert (cs + [ch])[1..] == cs[1..] + [ch];
      CharsSnoc(cs[1..], ch);
    }
  }

  /** How the bytes of a string are printed, one by one. */
  ghost predicate Printed(cs: seq<Char>, str: seq<byte>) {
    && |cs| == |str|
    && forall k | 0 <= k < |str| ::
      && ValidChar(cs[k]) && CharBytes(cs[k]) == [str[k]] && !cs[k].Surrogates?
      && (cs[k].Short? <==> str[k] in SHORT_BYTES)
      && (cs[k].Raw? <==> str[k] !in SHORT_BYTES && str[k] >= 0x20)
  }

  lemma {:induction false} EscapedChars(str: seq<byte>, n: nat) returns (cs: seq<Char>)
    requires n <= |str|
    ensures Printed(cs, str[..n]) && CharsText(cs) == EscapeTo(str, n)
    decreases n
  {
    hide EscapeByte;
    hide CharText;
    hide CharBytes;
    hide ValidChar;
    cs := [];
    if n > 0 {
      var front := EscapedChars(str, n - 1);
      var ch := PrintedChar(str[n - 1]);
      assert ValidChars(front);
      cs := front + [ch];
      CharsSnoc(front, ch);
      assert str[..n] == str[..n - 1] + [str[n - 1]];
    }
  }

  /** json_serialize_string prints every byte by one character of the grammar: a short escape
      exactly where there is one, and a \u escape only for other control characters. */
  lemma QuoteIsText(str: seq<byte>) returns (cs: seq<Char>)
    ensures Printed(cs, str) && StringText(cs) == Quote(str)
  {
    hide Printed;
    hide EscapeTo;
    hide CharsText;
    cs := EscapedChars(str, |str|);
    assert str[..|str|] == str;
  }

  // ----- embedding -----

  /** Byte k is no control character, and if it is a slash a backslash is before it. */
  predicate Tame(t: seq<byte>, k: nat)
    requires k < |t|
  {
    t[k] >= 0x20 && (t[k] == 0x2F ==> k > 0 && t[k - 1] == 0x5C)
  }

  predicate Embeddable(t: seq<byte>) {
    forall k | 0 <= k < |t| :: Tame(t, k)
  }

  lemma EmbedsAppend(a: seq<byte>, b: seq<byte>)
    requires Embeddable(a) && Embeddable(b)
    ensures Embeddable(a + b)
  {
    var t := a + b;
    forall k | 0 <= k < |t|
      ensures Tame(t, k)
    {
      assert if k < |a| then Tame(a, k) else Tame(b, k - |a|);
    }
  }

  lemma EscapeEmbeds(c: byte)
    ensures Embeddable(EscapeByte(c))
  {
    HexCharPlain(c >> 4);
    HexCharPlain(c & 0xF);
  }

  lemma HexCharPlain(d: byte)
    requires d < 16
    ensures HexChar(d) >= 0x30
  {
  }

  lemma {:induction false} EscapesEmbed(str: seq<byte>, n: nat)
    requires n <= |str|
    ensures Embeddable(EscapeTo(str, n))
  {
    hide EscapeByte;
    if n > 0 {
      hide Embeddable;
      EscapesEmbed(str, n - 1);
      EscapeEmbeds(str[n - 1]);
      EmbedsAppend(EscapeTo(str, n - 1), EscapeByte(str[n - 1]));
    }
  }

  /** A printed string can stand in XML or HTML text: no control character is printed, and no
      slash without a backslash before it. */
  lemma QuoteEmbeds(str: seq<byte>)
    ensures Embeddable(Quote(str))
  {
    hide EscapeTo;
    var body := EscapeTo(str, |str|);
    EscapesEmbed(str, |str|);
    EmbedsAppend([QUOTE], body);
    EmbedsAppend([QUOTE] + body, [QUOTE]);
  }
}
