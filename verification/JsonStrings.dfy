/** Quoted strings in parson.c: the scan for the closing quote, the scan that resolves the
    escapes, and what the two have to do with each other. */
module JsonStrings {
  import opened Options
  import opened Bytes
  import Utf8

  const QUOTE: byte := 0x22
  const BACKSLASH: byte := 0x5C
  const SLASH: byte := 0x2F
  const LOWER_U: byte := 0x75

  // ----- \u escapes -----

  predicate IsHex(c: byte) {
    0x30 <= c <= 0x39 || 0x61 <= c <= 0x66 || 0x41 <= c <= 0x46
  }

  function HexDigit(c: byte): bv32
    requires IsHex(c)
  {
    if c <= 0x39 then (c - 0x30) as bv32 else if c >= 0x61 then (c - 0x61 + 10) as bv32 else (c - 0x41 + 10) as bv32
  }

  function FourDigits(a: byte, b: byte, c: byte, d: byte): bv32
    requires IsHex(a) && IsHex(b) && IsHex(c) && IsHex(d)
  {
    (HexDigit(a) << 12) | (HexDigit(b) << 8) | (HexDigit(c) << 4) | HexDigit(d)
  }

  /** parse_utf16_hex at i. */
  function Hex4(s: seq<byte>, i: nat): Option<bv32> {
    if IsHex(At(s, i)) && IsHex(At(s, i + 1)) && IsHex(At(s, i + 2)) && IsHex(At(s, i + 3)) then
      Some(FourDigits(At(s, i), At(s, i + 1), At(s, i + 2), At(s, i + 3)))
    else None
  }

  /** The last of the four bytes that parse_utf16_hex looks at: it stops at a terminator. */
  function Hex4Reads(s: seq<byte>, i: nat): nat {
    if At(s, i) == 0 then i else if At(s, i + 1) == 0 then i + 1 else if At(s, i + 2) == 0 then i + 2 else i + 3
  }

  datatype Escape = BadEscape | Escape(codePoint: bv32, next: nat)

  predicate IsLead(cp: bv32) {
    0xD800 <= cp <= 0xDBFF
  }

  function Combine(lead: bv32, trail: bv32): bv32 {
    ((((lead - 0xD800) & 0x3FF) << 10) | ((trail - 0xDC00) & 0x3FF)) + 0x10000
  }

  /** parse_utf16 with the u of the escape at i; next is the byte after the escape. */
  function Utf16(s: seq<byte>, i: nat): Escape {
    match Hex4(s, i + 1)
    case None => BadEscape
    case Some(cp) =>
      if cp < 0xD800 || cp > 0xDFFF then Escape(cp, i + 5)
      else if !IsLead(cp) || At(s, i + 5) != BACKSLASH || At(s, i + 6) != LOWER_U then BadEscape
      else match Hex4(s, i + 7)
        case None => BadEscape
        case Some(trail) =>
          if trail < 0xDC00 || trail > 0xDFFF then BadEscape else Escape(Combine(cp, trail), i + 11)
  }

  /** The last byte parse_utf16 looks at. */
  function Utf16Reads(s: seq<byte>, i: nat): nat {
    match Hex4(s, i + 1)
    case None => Hex4Reads(s, i + 1)
    case Some(cp) =>
      if !IsLead(cp) then i + 4
      else if At(s, i + 5) != BACKSLASH then i + 5
      else if At(s, i + 6) != LOWER_U then i + 6
      else Hex4Reads(s, i + 7)
  }

  lemma FourDigitsBound(a: byte, b: byte, c: byte, d: byte)
    requires IsHex(a) && IsHex(b) && IsHex(c) && IsHex(d)
    ensures FourDigits(a, b, c, d) <= 0xFFFF
  {
  }

  /** A surrogate pair stands for the character section 2.2 of RFC 2781 gives it. */
  lemma CombineMeans(lead: bv32, trail: bv32)
    requires IsLead(lead) && 0xDC00 <= trail <= 0xDFFF
    ensures Combine(lead, trail) == 0x10000 + ((lead - 0xD800) << 10) + (trail - 0xDC00)
    ensures 0x10000 <= Combine(lead, trail) <= 0x10FFFF
  {
  }

  /** Every escape that parse_utf16 accepts names a character, and the bytes it writes for it
      are accepted by the validator and decode to that character. */
  lemma EscapesAreUtf8(s: seq<byte>, i: nat)
    requires Utf16(s, i).Escape?
    ensures var cp := Utf16(s, i).codePoint;
      && Utf8.Scalar(cp)
      && Utf8.VerifySequence(Utf8.Encode(cp), 0) == Utf8.Valid(|Utf8.Encode(cp)|, cp)
  {
    hide FourDigits;
    hide Combine;
    hide Utf8.VerifySequence;
    var cp := Hex4(s, i + 1).value;
    FourDigitsBound(At(s, i + 1), At(s, i + 2), At(s, i + 3), At(s, i + 4));
    if IsLead(cp) {
      CombineMeans(cp, Hex4(s, i + 7).value);
    }
    Utf8.EncodeVerifies(Utf16(s, i).codePoint);
  }

  /** The bytes written are fewer than the bytes of the escape. */
  lemma EscapeShrinks(s: seq<byte>, i: nat)
    requires Utf16(s, i).Escape?
    ensures 1 <= |Utf8.Encode(Utf16(s, i).codePoint)| <= Utf16(s, i).next - i - 2
  {
    hide FourDigits;
    FourDigitsBound(At(s, i + 1), At(s, i + 2), At(s, i + 3), At(s, i + 4));
  }

  // ----- the two scans -----

  /** skip_quotes after the opening quote: where the closing quote is. */
  function Closing(s: seq<byte>, p: nat): (e: Option<nat>)
    ensures e.Some? ==> p <= e.value < |s| && s[e.value] == QUOTE
    decreases |s| - p
  {
    if At(s, p) == QUOTE then Some(p)
    else if At(s, p) == 0 then None
    else if At(s, p) == BACKSLASH then if At(s, p + 1) == 0 then None else Closing(s, p + 2)
    else Closing(s, p + 1)
  }

  /** The byte a two-character escape stands for. */
  function Plain(c: byte): Option<byte> {
    if c == QUOTE || c == BACKSLASH || c == SLASH then Some(c)
    else if c == 0x62 then Some(0x08)
    else if c == 0x66 then Some(0x0C)
    else if c == 0x6E then Some(0x0A)
    else if c == 0x72 then Some(0x0D)
    else if c == 0x74 then Some(0x09)
    else None
  }

  datatype Piece = BadPiece | Piece(bytes: seq<byte>, next: nat)

  /** One turn of the loop of process_string. */
  function NextPiece(s: seq<byte>, p: nat): Piece {
    var c, d := At(s, p), At(s, p + 1);
    if c == BACKSLASH then
      if d == LOWER_U then
        var esc := Utf16(s, p + 1);
        if esc.BadEscape? then BadPiece else Piece(Utf8.Encode(esc.codePoint), esc.next)
      else if Plain(d).Some? then Piece([Plain(d).value], p + 2)
      else BadPiece
    else if c < 0x20 then BadPiece
    else Piece([c], p + 1)
  }

  datatype Processed = Rejected | Processed(bytes: seq<byte>, stop: nat)

  /** process_string from p up to end, after the bytes in done. */
  function Process(s: seq<byte>, p: nat, end: nat, done: seq<byte>): Processed
    decreases |s| + 12 - p
  {
    if At(s, p) == 0 || p >= end then Processed(done, p)
    else match NextPiece(s, p)
      case BadPiece => Rejected
      case Piece(bytes, next) => Process(s, next, end, done + bytes)
  }

  /** The last byte process_string looks at. */
  function Reads(s: seq<byte>, p: nat, end: nat): nat
    decreases |s| + 12 - p
  {
    if At(s, p) == 0 || p >= end then p
    else match NextPiece(s, p)
      case Piece(_, next) => Reads(s, next, end)
      case BadPiece =>
        if At(s, p) != BACKSLASH then p else if At(s, p + 1) == LOWER_U then Utf16Reads(s, p + 1) else p + 1
  }

  // ----- agreement of the two scans -----

  lemma HexIsOrdinary(s: seq<byte>, p: nat)
    requires IsHex(At(s, p))
    ensures Closing(s, p) == Closing(s, p + 1)
  {
  }

  lemma Hex4IsOrdinary(s: seq<byte>, p: nat)
    requires Hex4(s, p).Some?
    ensures Closing(s, p) == Closing(s, p + 4)
  {
    hide Closing;
    HexIsOrdinary(s, p);
    HexIsOrdinary(s, p + 1);
    HexIsOrdinary(s, p + 2);
    HexIsOrdinary(s, p + 3);
  }

  lemma SkipEscape(s: seq<byte>, p: nat)
    requires At(s, p) == BACKSLASH && At(s, p + 1) != 0
    ensures Closing(s, p) == Closing(s, p + 2)
  {
  }

  /** Both scans step over the same bytes. */
  lemma PieceKeepsClosing(s: seq<byte>, p: nat)
    requires Closing(s, p).Some? && p < Closing(s, p).value && NextPiece(s, p).Piece?
    ensures var piece := NextPiece(s, p);
      p < piece.next && Closing(s, piece.next) == Closing(s, p) && 1 <= |piece.bytes| <= piece.next - p
  {
    hide Hex4;
    hide Utf8.Encode;
    if At(s, p) == BACKSLASH {
      hide Closing;
      SkipEscape(s, p);
      if At(s, p + 1) == LOWER_U {
        var esc := Utf16(s, p + 1);
        EscapeShrinks(s, p + 1);
        Hex4IsOrdinary(s, p + 2);
        if esc.next == p + 12 {
          SkipEscape(s, p + 6);
          Hex4IsOrdinary(s, p + 8);
        }
      }
    }
  }

  /** Whenever skip_quotes finds a closing quote, process_string on the bytes before it either
      fails or stops exactly at that quote, having written no more bytes than it consumed. */
  lemma {:induction false} ScannersAgree(s: seq<byte>, p: nat, done: seq<byte>)
    requires Closing(s, p).Some?
    ensures var e := Closing(s, p).value;
      var r := Process(s, p, e, done);
      r.Processed? ==> r.stop == e && |done| <= |r.bytes| <= |done| + e - p
    decreases Closing(s, p).value - p
  {
    hide Closing;
    hide NextPiece;
    var e := Closing(s, p).value;
    ClosingBounds(s, p);
    if p < e && NextPiece(s, p).Piece? {
      PieceKeepsClosing(s, p);
      ScannersAgree(s, NextPiece(s, p).next, done + NextPiece(s, p).bytes);
    }
  }

  lemma {:induction false} ClosingBounds(s: seq<byte>, p: nat)
    requires Closing(s, p).Some?
    ensures p <= Closing(s, p).value < |s|
    ensures p < Closing(s, p).value ==> At(s, p) != 0
  {
  }

  // ----- how far process_string looks -----

  /** Successful turns of the loop lead from i to p. */
  predicate Arrives(s: seq<byte>, i: nat, p: nat)
    decreases p - i
  {
    i == p || (i < p && NextPiece(s, i).Piece? && i < NextPiece(s, i).next <= p && Arrives(s, NextPiece(s, i).next, p))
  }

  /** A \u escape with fewer than three bytes between its u and the closing quote e, or a lead
      surrogate followed by one. */
  predicate ShortEscape(s: seq<byte>, p: nat, e: nat) {
    && At(s, p) == BACKSLASH && At(s, p + 1) == LOWER_U
    && (|| e < p + 5
        || (Hex4(s, p + 2).Some? && IsLead(Hex4(s, p + 2).value)
            && At(s, p + 6) == BACKSLASH && At(s, p + 7) == LOWER_U && e < p + 11))
  }

  lemma Hex4ReadsExact(s: CString, i: nat, e: nat)
    requires i <= e < |s|
    ensures Hex4Reads(s, i) > e <==> e < i + 3
    ensures Hex4Reads(s, i) <= |s|
  {
  }

  lemma QuoteIsNotHex(s: seq<byte>, i: nat, e: nat)
    requires e < |s| && s[e] == QUOTE && i <= e < i + 4
    ensures Hex4(s, i).None?
  {
  }

  lemma UnicodeReads(s: CString, p: nat, e: nat)
    requires Closing(s, p) == Some(e) && At(s, p) == BACKSLASH && At(s, p + 1) == LOWER_U && p < e
    ensures NextPiece(s, p).BadPiece? ==>
      Utf16Reads(s, p + 1) <= |s| && (Utf16Reads(s, p + 1) > e <==> ShortEscape(s, p, e))
    ensures ShortEscape(s, p, e) ==> NextPiece(s, p).BadPiece?
  {
    hide Hex4;
    hide Hex4Reads;
    hide Closing;
    SkipEscape(s, p);
    ClosingBounds(s, p + 2);
    QuoteAtClosing(s, p + 2);
    Hex4ReadsExact(s, p + 2, e);
    if Hex4(s, p + 2).Some? {
      if e < p + 6 { QuoteIsNotHex(s, p + 2, e); assert false; }
      Hex4IsOrdinary(s, p + 2);
      ClosingBounds(s, p + 6);
      if IsLead(Hex4(s, p + 2).value) && At(s, p + 6) == BACKSLASH && At(s, p + 7) == LOWER_U {
        SkipEscape(s, p + 6);
        ClosingBounds(s, p + 8);
        Hex4ReadsExact(s, p + 8, e);
        if e < p + 12 { QuoteIsNotHex(s, p + 8, e); }
      }
    }
  }

  lemma QuoteAtClosing(s: seq<byte>, p: nat)
    requires Closing(s, p).Some?
    ensures Closing(s, p).value < |s| && s[Closing(s, p).value] == QUOTE
  {
  }

  lemma PieceReads(s: CString, i: nat, e: nat)
    requires Closing(s, i) == Some(e) && i < e
    ensures ShortEscape(s, i, e) ==> NextPiece(s, i).BadPiece?
    ensures NextPiece(s, i).BadPiece? ==> Reads(s, i, e) <= |s| && (Reads(s, i, e) > e <==> ShortEscape(s, i, e))
    ensures NextPiece(s, i).Piece? ==> Reads(s, i, e) == Reads(s, NextPiece(s, i).next, e)
  {
    hide Utf16;
    hide Utf16Reads;
    hide Hex4;
    if At(s, i) == BACKSLASH && At(s, i + 1) == LOWER_U {
      UnicodeReads(s, i, e);
    }
  }

  /** process_string never looks past the terminator, and it looks past the closing quote
      exactly when it comes to an escape that the quote cuts short. */
  lemma {:induction false} ReadsExact(s: CString, i: nat)
    requires Closing(s, i).Some?
    ensures var e := Closing(s, i).value;
      && Reads(s, i, e) <= |s|
      && (Reads(s, i, e) > e <==> exists p: nat :: p < e && Arrives(s, i, p) && ShortEscape(s, p, e))
    decreases Closing(s, i).value - i
  {
    hide Closing;
    hide NextPiece;
    hide ShortEscape;
    var e := Closing(s, i).value;
    ClosingBounds(s, i);
    if i < e {
      PieceReads(s, i, e);
      var piece := NextPiece(s, i);
      if piece.Piece? {
        PieceKeepsClosing(s, i);
        ClosingBounds(s, piece.next);
        ReadsExact(s, piece.next);
        forall p: nat | p < e && Arrives(s, piece.next, p) ensures Arrives(s, i, p) {
          ArrivesOrder(s, piece.next, p);
        }
      } else {
        assert Arrives(s, i, i);
      }
    }
  }

  lemma ArrivesOrder(s: seq<byte>, i: nat, p: nat)
    requires Arrives(s, i, p)
    ensures i <= p
  {
  }

  /** A string that is accepted is read up to its closing quote and no further. */
  lemma {:induction false} SuccessReads(s: CString, i: nat, done: seq<byte>)
    requires Closing(s, i).Some? && Process(s, i, Closing(s, i).value, done).Processed?
    ensures Reads(s, i, Closing(s, i).value) == Closing(s, i).value
    decreases Closing(s, i).value - i
  {
    hide Closing;
    hide NextPiece;
    ClosingBounds(s, i);
    if i < Closing(s, i).value {
      PieceKeepsClosing(s, i);
      SuccessReads(s, NextPiece(s, i).next, done + NextPiece(s, i).bytes);
    }
  }

  /** The bytes "\u"x with the closing quote at index 3: index 5 is looked at. */
  lemma CutShort()
    ensures var s: CString := [QUOTE, BACKSLASH, LOWER_U, QUOTE, 0x78];
      Closing(s, 1) == Some(3) && Reads(s, 1, 3) == 5
  {
    var s: CString := [QUOTE, BACKSLASH, LOWER_U, QUOTE, 0x78];
    assert Closing(s, 3) == Some(3);
    assert Hex4(s, 3).None?;
  }
}
